/** Splitting and merging tablets: the proposals a node makes and what the merge does with them. */
module Tablets {
  import opened Keys
  import opened Codec
  import opened Ring
  import opened RingLaws
  import opened Assignment
  import opened Proposal

  /** Hexadecimal SHA-256 in the source; here any function to non-empty identifiers. */
  type Digest = d: seq<byte> -> Key | forall s :: d(s) != [] witness (s: seq<byte>) => [0]

  function ProposalId(digest: Digest, contents: seq<Content>): (id: Key)
    ensures id != []
  {
    digest(Stream(Canonicalise(contents)))
  }

  function Score(hash: seq<byte> -> uint64, start: Key, end: Key): Key -> uint64 {
    node => ReplicaScore(hash, start, end, node)
  }

  // ---------------------------------------------------------------- proposals

  function Children(current: Range, boundary: Key, left: seq<Key>, right: seq<Key>, id: Key): seq<Range>
    requires current.generation < MAX_UINT64
  {
    [ Range(current.start, boundary, left, current.generation + 1, id),
      Range(boundary, current.end, right, current.generation + 1, id) ]
  }

  function SplitId(digest: Digest, current: Range, boundary: Key, left: seq<Key>, right: seq<Key>): (id: Key)
    ensures id != []
  {
    ProposalId(digest, [Content(current.start, boundary, left), Content(boundary, current.end, right)])
  }

  function MergedRange(left: Range, right: Range, replicas: seq<Key>, id: Key): Range
    requires left.generation < MAX_UINT64 && right.generation < MAX_UINT64
  {
    var generation := if left.generation > right.generation then left.generation else right.generation;
    Range(left.start, right.end, replicas, generation + 1, id)
  }

  function MergeId(digest: Digest, left: Range, right: Range, replicas: seq<Key>): (id: Key)
    ensures id != []
  {
    ProposalId(digest, [Content(left.start, right.end, replicas)])
  }

  /** m with its ranges lo up to hi replaced. */
  function Replace(m: RangeMap, lo: nat, hi: nat, pieces: seq<Range>): RangeMap
    requires lo <= hi <= |m|
  {
    m[..lo] + pieces + m[hi..]
  }

  datatype Attempt = NoProposal | Proposed(ranges: RangeMap)

  /** What splitRange hands to the table, if anything. The boundary is an input:
      the source takes it from a scan of the store. */
  ghost function SplitAttempt(hash: seq<byte> -> uint64, digest: Digest, m: RangeMap, index: nat,
                              boundary: Key, alive: set<Key>, count: int): Attempt
    requires index < |m|
  {
    var current := m[index];
    if current.generation == MAX_UINT64 || boundary == [] || boundary == current.start || boundary == current.end
    then NoProposal
    else
      var left := Assign(Score(hash, current.start, boundary), alive, Elements(current.replicas), count);
      var right := Assign(Score(hash, boundary, current.end), alive, Elements(current.replicas), count);
      if left.Replicas? && right.Replicas?
      then
        var id := SplitId(digest, current, boundary, left.ids, right.ids);
        Proposed(Replace(m, index, index + 1, Children(current, boundary, left.ids, right.ids, id)))
      else NoProposal
  }

  ghost function MergeAttempt(hash: seq<byte> -> uint64, digest: Digest, m: RangeMap, leftIndex: nat,
                              alive: set<Key>, count: int): Attempt
    requires leftIndex + 1 < |m|
  {
    var left, right := m[leftIndex], m[leftIndex + 1];
    if left.generation == MAX_UINT64 || right.generation == MAX_UINT64 then NoProposal
    else
      var retained := Elements(left.replicas) * Elements(right.replicas);
      var replicas := Assign(Score(hash, left.start, right.end), alive, retained, count);
      if replicas.Replicas?
      then
        var id := MergeId(digest, left, right, replicas.ids);
        Proposed(Replace(m, leftIndex, leftIndex + 2, [MergedRange(left, right, replicas.ids, id)]))
      else NoProposal
  }

  /** The replicas that the source keeps when two ranges are merged. */
  method IntersectReplicas(left: seq<Key>, right: seq<Key>) returns (both: seq<Key>)
    ensures Elements(both) == Elements(left) * Elements(right)
    ensures Distinct(left) ==> Distinct(both)
  {
    both := [];
    for i := 0 to |left|
      invariant Elements(both) == Elements(left[..i]) * Elements(right)
      invariant Distinct(left) ==> Distinct(both)
    {
      assert Elements(left[..i + 1]) == Elements(left[..i]) + {left[i]};
      if left[i] in right {
        assert Distinct(left) ==> left[i] !in Elements(both);
        assert forall j :: 0 <= j < |both| ==> both[j] in Elements(both);
        assert Elements(both + [left[i]]) == Elements(both) + {left[i]};
        both := both + [left[i]];
      }
    }
    assert left[..|left|] == left;
  }

  // ---------------------------------------------------------------- installed verbatim

  /** If every key is won without a tie by what p holds there, and the winning
      range changes exactly where p's ranges change, then merging p installs p. */
  lemma InstalledVerbatim(m: RangeMap, p: RangeMap)
    requires Validate(m) && Canonical(p)
    requires forall k: Key :: !PickAt(m, p, k).tied && PickAt(m, p, k).winner == At(p, k)
    requires forall a: Key, b: Key :: PickAt(m, p, a).source == PickAt(m, p, b).source <==>
              IndexAt(p, a) == IndexAt(p, b)
    ensures IsMerge(m, p, p)
  {
    forall a: Key, b: Key | AtMost(a, b) ensures IndexAt(p, a) == IndexAt(p, b) <==> OneWinner(m, p, a, b) {
      if IndexAt(p, a) == IndexAt(p, b) {
        forall k: Key | AtMost(a, k) && AtMost(k, b) ensures PickAt(m, p, k).source == PickAt(m, p, a).source {
          IndexConvex(p, a, k, b);
        }
      } else {
        assert AtMost(b, b);
      }
    }
  }

  /** pieces tile exactly the keys of m's ranges lo up to hi, at higher generations. */
  ghost predicate Refines(m: RangeMap, lo: nat, hi: nat, pieces: seq<Range>) {
    && lo < hi <= |m| && pieces != []
    && pieces[0].start == m[lo].start && pieces[|pieces| - 1].end == m[hi - 1].end
    && (forall i :: 0 <= i < |pieces| ==> WellFormed(pieces[i]))
    && (forall i :: 0 < i < |pieces| ==> pieces[i].start == pieces[i - 1].end)
    && (forall i :: 0 <= i < |pieces| - 1 ==> pieces[i].end != [])
    && (forall i, j :: 0 <= i < |pieces| && lo <= j < hi ==> pieces[i].generation > m[j].generation)
  }

  lemma ReplaceAt(m: RangeMap, lo: nat, hi: nat, pieces: seq<Range>, i: nat)
    requires lo <= hi <= |m| && i < |Replace(m, lo, hi, pieces)|
    ensures var p := Replace(m, lo, hi, pieces);
            p[i] == if i < lo then m[i]
                    else if i < lo + |pieces| then pieces[i - lo]
                    else m[i - |pieces| + (hi - lo)]
  {
  }

  lemma ReplaceIsPartition(m: RangeMap, lo: nat, hi: nat, pieces: seq<Range>)
    requires Canonical(m) && Refines(m, lo, hi, pieces)
    ensures Canonical(Replace(m, lo, hi, pieces))
  {
    var p := Replace(m, lo, hi, pieces);
    forall i | 0 <= i < |p| ensures WellFormed(p[i]) && (i < |p| - 1 ==> p[i].end != []) {
      ReplaceAt(m, lo, hi, pieces, i);
    }
    forall i | 0 < i < |p| ensures p[i].start == p[i - 1].end {
      ReplaceAt(m, lo, hi, pieces, i);
      ReplaceAt(m, lo, hi, pieces, i - 1);
    }
    ReplaceAt(m, lo, hi, pieces, 0);
    ReplaceAt(m, lo, hi, pieces, |p| - 1);
  }

  /** Lookups outside the replaced ranges are unaffected; lookups inside land in the pieces. */
  lemma ReplaceIndex(m: RangeMap, lo: nat, hi: nat, pieces: seq<Range>, k: Key)
    requires Canonical(m) && Refines(m, lo, hi, pieces) && Canonical(Replace(m, lo, hi, pieces))
    ensures var p := Replace(m, lo, hi, pieces);
            var i, j := IndexAt(m, k), IndexAt(p, k);
            if i < lo then j == i && p[j] == m[i]
            else if i < hi then lo <= j < lo + |pieces| && p[j] == pieces[j - lo]
            else j == i + |pieces| - (hi - lo) && p[j] == m[i]
  {
    var p := Replace(m, lo, hi, pieces);
    var i := IndexAt(m, k);
    if i < lo {
      ContainsIsIndex(p, k, i);
    } else if i >= hi {
      ContainsIsIndex(p, k, i + |pieces| - (hi - lo));
    } else {
      var j := IndexAt(p, k);
      if j >= lo + |pieces| {
        ContainsIsIndex(m, k, j - |pieces| + (hi - lo));
      }
    }
  }

  /** A proposal that replaces some ranges by higher-generation pieces over the
      same keys is installed exactly as proposed, and counts as a change. */
  lemma ReplacementInstalled(m: RangeMap, lo: nat, hi: nat, pieces: seq<Range>)
    requires Canonical(m) && Refines(m, lo, hi, pieces)
    ensures var p := Replace(m, lo, hi, pieces);
            Canonical(p) && IsMerge(m, p, p) && !TieAtMaximum(m, p) && p != m
  {
    ReplaceIsPartition(m, lo, hi, pieces);
    var p := Replace(m, lo, hi, pieces);
    forall k: Key
      ensures !PickAt(m, p, k).tied && PickAt(m, p, k).winner == At(p, k)
      ensures PickAt(m, p, k).source ==
                if lo <= IndexAt(p, k) < lo + |pieces| then Source(1, IndexAt(p, k)) else Source(0, IndexAt(m, k))
    {
      ReplaceIndex(m, lo, hi, pieces, k);
    }
    forall a: Key, b: Key
      ensures PickAt(m, p, a).source == PickAt(m, p, b).source <==> IndexAt(p, a) == IndexAt(p, b)
    {
      ReplaceIndex(m, lo, hi, pieces, a);
      ReplaceIndex(m, lo, hi, pieces, b);
    }
    InstalledVerbatim(m, p);
    StartIndex(m, lo);
    ReplaceIndex(m, lo, hi, pieces, m[lo].start);
  }

  // ---------------------------------------------------------------- the two proposals

  /** boundary cuts r into two non-empty halves. */
  predicate Inside(r: Range, boundary: Key) {
    Less(r.start, boundary) && (r.end == [] || Less(boundary, r.end))
  }

  /** count distinct replicas, all but at most one of which are among the holders of the data. */
  ghost predicate KeepsData(replicas: seq<Key>, holders: set<Key>, count: int) {
    && Distinct(replicas) && |replicas| == count
    && |Elements(replicas) * holders| >= Needed(count) >= 1
  }

  lemma ChildrenRefine(m: RangeMap, index: nat, boundary: Key, left: seq<Key>, right: seq<Key>, id: Key)
    requires Canonical(m) && index < |m| && Inside(m[index], boundary) && id != []
    requires m[index].generation < MAX_UINT64 && left != [] && right != []
    ensures Refines(m, index, index + 1, Children(m[index], boundary, left, right, id))
  {
    OrderLaws();
  }

  /** Merging p into m gives p. The keys of the ranges lo up to hi of m have
      replicas that keep the data of the holders, and the other keys are served as before. */
  ghost predicate ServesAsProposed(m: RangeMap, p: RangeMap, lo: nat, hi: nat, holders: set<Key>, count: int)
    requires Validate(m)
  {
    && Canonical(p) && IsMerge(m, p, p) && !TieAtMaximum(m, p) && p != m
    && (forall k: Key :: if lo <= IndexAt(m, k) < hi then KeepsData(At(p, k).replicas, holders, count)
                         else At(p, k) == At(m, k))
  }

  /** Pieces that keep the data, put in the place of neighbouring ranges, are installed verbatim. */
  lemma PiecesInstalled(m: RangeMap, lo: nat, hi: nat, pieces: seq<Range>, holders: set<Key>, count: int)
    requires Canonical(m) && Refines(m, lo, hi, pieces)
    requires forall c :: c in pieces ==> KeepsData(c.replicas, holders, count)
    ensures ServesAsProposed(m, Replace(m, lo, hi, pieces), lo, hi, holders, count)
  {
    ReplacementInstalled(m, lo, hi, pieces);
    PiecesServeReplaced(m, lo, hi, pieces);
  }

  lemma ChildrenKeepData(r: Range, boundary: Key, left: seq<Key>, right: seq<Key>, id: Key, holders: set<Key>,
                         count: int)
    requires r.generation < MAX_UINT64 && KeepsData(left, holders, count) && KeepsData(right, holders, count)
    ensures forall c :: c in Children(r, boundary, left, right, id) ==> KeepsData(c.replicas, holders, count)
  {
  }

  /** A split with a boundary inside the range is installed verbatim; every key
      of the range gets count distinct replicas, all but at most one of which
      held it before, and no other key is touched. */
  lemma SplitKeepsDataReachable(hash: seq<byte> -> uint64, digest: Digest, m: RangeMap, index: nat,
                                boundary: Key, alive: set<Key>, count: int)
    requires Canonical(m) && index < |m| && Inside(m[index], boundary)
    requires SplitAttempt(hash, digest, m, index, boundary, alive, count).Proposed?
    ensures ServesAsProposed(m, SplitAttempt(hash, digest, m, index, boundary, alive, count).ranges,
                              index, index + 1, Elements(m[index].replicas), count)
  {
    var current := m[index];
    var previous := Elements(current.replicas);
    var left := Assign(Score(hash, current.start, boundary), alive, previous, count);
    var right := Assign(Score(hash, boundary, current.end), alive, previous, count);
    AssignmentIsSafe(Score(hash, current.start, boundary), alive, previous, count);
    AssignmentIsSafe(Score(hash, boundary, current.end), alive, previous, count);
    var children := Children(current, boundary, left.ids, right.ids,
                             SplitId(digest, current, boundary, left.ids, right.ids));
    ChildrenRefine(m, index, boundary, left.ids, right.ids, SplitId(digest, current, boundary, left.ids, right.ids));
    ChildrenKeepData(current, boundary, left.ids, right.ids, SplitId(digest, current, boundary, left.ids, right.ids),
                     previous, count);
    PiecesInstalled(m, index, index + 1, children, previous, count);
  }

  lemma PiecesServeReplaced(m: RangeMap, lo: nat, hi: nat, pieces: seq<Range>)
    requires Canonical(m) && Refines(m, lo, hi, pieces)
    ensures var p := Replace(m, lo, hi, pieces);
            && Canonical(p)
            && forall k: Key :: if lo <= IndexAt(m, k) < hi then At(p, k) in pieces else At(p, k) == At(m, k)
  {
    ReplaceIsPartition(m, lo, hi, pieces);
    var p := Replace(m, lo, hi, pieces);
    forall k: Key ensures if lo <= IndexAt(m, k) < hi then At(p, k) in pieces else At(p, k) == At(m, k) {
      ReplaceIndex(m, lo, hi, pieces, k);
    }
  }

  /** A boundary that does not cut the range in two yields a proposal the table rejects. */
  lemma SplitElsewhereRejected(hash: seq<byte> -> uint64, digest: Digest, m: RangeMap, index: nat,
                               boundary: Key, alive: set<Key>, count: int)
    requires Canonical(m) && index < |m| && !Inside(m[index], boundary)
    requires SplitAttempt(hash, digest, m, index, boundary, alive, count).Proposed?
    ensures !Validate(SplitAttempt(hash, digest, m, index, boundary, alive, count).ranges)
  {
    var current := m[index];
    var left := Assign(Score(hash, current.start, boundary), alive, Elements(current.replicas), count).ids;
    var right := Assign(Score(hash, boundary, current.end), alive, Elements(current.replicas), count).ids;
    var children := Children(current, boundary, left, right, SplitId(digest, current, boundary, left, right));
    BadHalvesRejected(m, index, children);
  }

  lemma ReplacedAt(m: RangeMap, lo: nat, hi: nat, pieces: seq<Range>, i: nat)
    requires lo <= hi <= |m| && i < |pieces|
    ensures Replace(m, lo, hi, pieces)[lo + i] == pieces[i]
  {
  }

  lemma BadHalvesRejected(m: RangeMap, index: nat, halves: seq<Range>)
    requires index < |m| && |halves| == 2 && halves[0].end == halves[1].start != []
             && !Inside(m[index], halves[1].start)
    requires halves[0].start == m[index].start && halves[1].end == m[index].end
    ensures !Validate(Replace(m, index, index + 1, halves))
  {
    ReplacedAt(m, index, index + 1, halves, 0);
    ReplacedAt(m, index, index + 1, halves, 1);
    assert !WellFormed(halves[0]) || !WellFormed(halves[1]) by {
      OrderLaws();
    }
  }

  /** A merge of two neighbours is installed verbatim; all but at most one of
      the count distinct replicas held both halves before. */
  lemma MergeKeepsDataReachable(hash: seq<byte> -> uint64, digest: Digest, m: RangeMap, leftIndex: nat,
                                alive: set<Key>, count: int)
    requires Canonical(m) && leftIndex + 1 < |m|
    requires MergeAttempt(hash, digest, m, leftIndex, alive, count).Proposed?
    ensures ServesAsProposed(m, MergeAttempt(hash, digest, m, leftIndex, alive, count).ranges, leftIndex, leftIndex + 2,
                              Elements(m[leftIndex].replicas) * Elements(m[leftIndex + 1].replicas), count)
  {
    var left, right := m[leftIndex], m[leftIndex + 1];
    var retained := Elements(left.replicas) * Elements(right.replicas);
    var a := Assign(Score(hash, left.start, right.end), alive, retained, count);
    AssignmentIsSafe(Score(hash, left.start, right.end), alive, retained, count);
    MergedInstalled(m, leftIndex, a.ids, MergeId(digest, left, right, a.ids), retained, count);
  }

  lemma MergedInstalled(m: RangeMap, leftIndex: nat, ids: seq<Key>, id: Key, holders: set<Key>, count: int)
    requires Canonical(m) && leftIndex + 1 < |m| && ids != [] && id != [] && KeepsData(ids, holders, count)
    requires m[leftIndex].generation < MAX_UINT64 && m[leftIndex + 1].generation < MAX_UINT64
    ensures ServesAsProposed(m, Replace(m, leftIndex, leftIndex + 2,
                                        [MergedRange(m[leftIndex], m[leftIndex + 1], ids, id)]),
                             leftIndex, leftIndex + 2, holders, count)
  {
    MergedRefines(m, leftIndex, ids, id);
    PiecesInstalled(m, leftIndex, leftIndex + 2, [MergedRange(m[leftIndex], m[leftIndex + 1], ids, id)], holders,
                    count);
  }

  lemma MergedRefines(m: RangeMap, leftIndex: nat, replicas: seq<Key>, id: Key)
    requires Canonical(m) && leftIndex + 1 < |m| && replicas != [] && id != []
    requires m[leftIndex].generation < MAX_UINT64 && m[leftIndex + 1].generation < MAX_UINT64
    ensures Refines(m, leftIndex, leftIndex + 2, [MergedRange(m[leftIndex], m[leftIndex + 1], replicas, id)])
  {
    OrderLaws();
    assert m[leftIndex].end == m[leftIndex + 1].start;
  }

  // ---------------------------------------------------------------- when something is proposed, and what

  /** The replicas are the best choice for the range that they are to hold. */
  ghost predicate WellChosen(hash: seq<byte> -> uint64, r: Range, alive: set<Key>, previous: set<Key>, count: nat) {
    exists kept ::
      && BestChoice(Score(hash, r.start, r.end), alive, previous, count, r.replicas, kept)
      && Hashed(Score(hash, r.start, r.end), hash, r.start, r.end)
  }

  /** A node's score is the hash of the bounds and the node, each behind its length. */
  ghost predicate Hashed(score: Key -> uint64, hash: seq<byte> -> uint64, start: Key, end: Key) {
    forall node :: score(node) == hash(LengthPrefixed(start) + LengthPrefixed(end) + LengthPrefixed(node))
  }

  /** Enough live nodes, and among them enough previous replicas. */
  predicate CanAssign(alive: set<Key>, previous: set<Key>, count: int) {
    1 <= count <= |alive| && |alive * previous| >= if count > 1 then count - 1 else 1
  }

  lemma AssignedWell(hash: seq<byte> -> uint64, start: Key, end: Key, alive: set<Key>, previous: set<Key>, count: int)
    ensures var a := Assign(Score(hash, start, end), alive, previous, count);
            && (a.Replicas? <==> CanAssign(alive, previous, count))
            && (a.Replicas? ==>
                  count >= 1 && exists kept :: BestChoice(Score(hash, start, end), alive, previous, count, a.ids, kept))
  {
    AssignmentIsBest(Score(hash, start, end), alive, previous, count);
  }

  /** A split is proposed exactly when the range can move up, the boundary is not
      one of its ends and replicas can be assigned; then the range is replaced by
      its two halves, each with the best replicas for itself, one generation up,
      under one identifier that digests just these halves. */
  lemma SplitProposal(hash: seq<byte> -> uint64, digest: Digest, m: RangeMap, index: nat, boundary: Key,
                      alive: set<Key>, count: int)
    requires index < |m|
    ensures var a, r := SplitAttempt(hash, digest, m, index, boundary, alive, count), m[index];
            a.Proposed? <==>
              && r.generation < MAX_UINT64 && boundary != [] && boundary != r.start && boundary != r.end
              && CanAssign(alive, Elements(r.replicas), count)
    ensures var a, r := SplitAttempt(hash, digest, m, index, boundary, alive, count), m[index];
            a.Proposed? ==>
              && |a.ranges| == |m| + 1 && a.ranges[..index] == m[..index] && a.ranges[index + 2..] == m[index + 1..]
              && SplitHalves(hash, digest, r, boundary, alive, count, a.ranges[index], a.ranges[index + 1])
  {
    var r := m[index];
    AssignedWell(hash, r.start, boundary, alive, Elements(r.replicas), count);
    AssignedWell(hash, boundary, r.end, alive, Elements(r.replicas), count);
    var a := SplitAttempt(hash, digest, m, index, boundary, alive, count);
    if a.Proposed? {
      var left := Assign(Score(hash, r.start, boundary), alive, Elements(r.replicas), count).ids;
      var right := Assign(Score(hash, boundary, r.end), alive, Elements(r.replicas), count).ids;
      var halves := Children(r, boundary, left, right, SplitId(digest, r, boundary, left, right));
      HalvesAre(hash, digest, r, boundary, alive, count, left, right);
      ReplacedParts(m, index, index + 1, halves);
      ReplacedAt(m, index, index + 1, halves, 0);
      ReplacedAt(m, index, index + 1, halves, 1);
    }
  }

  ghost predicate SplitHalves(hash: seq<byte> -> uint64, digest: Digest, r: Range, boundary: Key, alive: set<Key>,
                              count: int, x: Range, y: Range) {
    && x.start == r.start && x.end == boundary && y.start == boundary && y.end == r.end
    && x.generation == r.generation + 1 && y.generation == r.generation + 1 && x.proposalId == y.proposalId
    && x.proposalId ==
         digest(Stream(Canonicalise([Content(x.start, x.end, x.replicas), Content(y.start, y.end, y.replicas)])))
    && count >= 1
    && WellChosen(hash, x, alive, Elements(r.replicas), count)
    && WellChosen(hash, y, alive, Elements(r.replicas), count)
  }

  lemma HalvesAre(hash: seq<byte> -> uint64, digest: Digest, r: Range, boundary: Key, alive: set<Key>, count: int,
                  left: seq<Key>, right: seq<Key>)
    requires r.generation < MAX_UINT64 && count >= 1
    requires exists kept :: BestChoice(Score(hash, r.start, boundary), alive, Elements(r.replicas), count, left, kept)
    requires exists kept :: BestChoice(Score(hash, boundary, r.end), alive, Elements(r.replicas), count, right, kept)
    ensures var halves := Children(r, boundary, left, right, SplitId(digest, r, boundary, left, right));
            SplitHalves(hash, digest, r, boundary, alive, count, halves[0], halves[1])
  {
  }

  lemma ReplacedParts(m: RangeMap, lo: nat, hi: nat, pieces: seq<Range>)
    requires lo <= hi <= |m|
    ensures var p := Replace(m, lo, hi, pieces);
            |p| == |m| - (hi - lo) + |pieces| && p[..lo] == m[..lo] && p[lo + |pieces|..] == m[hi..]
  {
  }

  ghost predicate MergedWell(hash: seq<byte> -> uint64, digest: Digest, left: Range, right: Range, alive: set<Key>,
                             count: int, x: Range) {
    && x.start == left.start && x.end == right.end
    && x.generation == (if left.generation > right.generation then left.generation else right.generation) + 1
    && x.proposalId == digest(Stream(Canonicalise([Content(x.start, x.end, x.replicas)])))
    && count >= 1 && WellChosen(hash, x, alive, Elements(left.replicas) * Elements(right.replicas), count)
  }

  /** A merge of neighbours is proposed exactly when both can move up and enough
      of their common replicas are alive; then they are replaced by one range,
      one above the higher generation. */
  lemma MergeProposal(hash: seq<byte> -> uint64, digest: Digest, m: RangeMap, leftIndex: nat, alive: set<Key>,
                      count: int)
    requires leftIndex + 1 < |m|
    ensures var a, l, r := MergeAttempt(hash, digest, m, leftIndex, alive, count), m[leftIndex], m[leftIndex + 1];
            a.Proposed? <==>
              && l.generation < MAX_UINT64 && r.generation < MAX_UINT64
              && CanAssign(alive, Elements(l.replicas) * Elements(r.replicas), count)
    ensures var a, l, r := MergeAttempt(hash, digest, m, leftIndex, alive, count), m[leftIndex], m[leftIndex + 1];
            a.Proposed? ==>
              && |a.ranges| == |m| - 1
              && a.ranges[..leftIndex] == m[..leftIndex] && a.ranges[leftIndex + 1..] == m[leftIndex + 2..]
              && MergedWell(hash, digest, l, r, alive, count, a.ranges[leftIndex])
  {
    var l, r := m[leftIndex], m[leftIndex + 1];
    var retained := Elements(l.replicas) * Elements(r.replicas);
    AssignedWell(hash, l.start, r.end, alive, retained, count);
    var a := MergeAttempt(hash, digest, m, leftIndex, alive, count);
    if a.Proposed? {
      var ids := Assign(Score(hash, l.start, r.end), alive, retained, count).ids;
      var pieces := [MergedRange(l, r, ids, MergeId(digest, l, r, ids))];
      ReplacedParts(m, leftIndex, leftIndex + 2, pieces);
      ReplacedAt(m, leftIndex, leftIndex + 2, pieces, 0);
    }
  }
}
