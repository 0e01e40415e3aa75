/** Algebraic laws of the routing-table merge, stated on its pointwise specification. */
module RingLaws {
  import opened Keys
  import opened Ring

  // ---------------------------------------------------------------- boundaries

  ghost predicate SameRanges(r: RangeMap, s: RangeMap)
    requires Validate(r) && Validate(s)
  {
    forall a: Key, b: Key :: AtMost(a, b) ==>
      (IndexAt(r, a) == IndexAt(r, b) <==> IndexAt(s, a) == IndexAt(s, b))
  }

  lemma StartIndex(m: RangeMap, i: nat)
    requires Canonical(m) && i < |m|
    ensures IndexAt(m, m[i].start) == i
  {
    OrderLaws();
    ContainsIsIndex(m, m[i].start, i);
  }

  lemma EndNotBelow(r: RangeMap, s: RangeMap, i: nat)
    requires Canonical(r) && Canonical(s) && SameRanges(r, s)
    requires i < |r| && i < |s| && r[i].start == s[i].start && r[i].end != []
    ensures s[i].end != [] && AtMost(s[i].end, r[i].end)
  {
    OrderLaws();
    var e := r[i].end;
    if s[i].end == [] || Less(e, s[i].end) {
      ContainsIsIndex(s, e, i);
      StartIndex(s, i);
      StartIndex(r, i);
      StartIndex(r, i + 1);
      assert AtMost(r[i].start, e);
    }
  }

  /** A partition is determined by which keys share a range. */
  lemma SameBoundaries(r: RangeMap, s: RangeMap)
    requires Canonical(r) && Canonical(s) && SameRanges(r, s)
    ensures |r| == |s|
    ensures forall i :: 0 <= i < |r| ==> r[i].start == s[i].start && r[i].end == s[i].end
  {
    OrderLaws();
    var i := 0;
    while r[i].end != []
      invariant 0 <= i < |r| && i < |s| && r[i].start == s[i].start
      invariant forall j :: 0 <= j < i ==> r[j].start == s[j].start && r[j].end == s[j].end
      decreases |r| - i
    {
      EndNotBelow(r, s, i);
      EndNotBelow(s, r, i);
      i := i + 1;
    }
    if s[i].end != [] {
      EndNotBelow(s, r, i);
    }
  }

  /** The specification leaves no freedom: at most one map is the merge of m and n. */
  lemma MergeUnique(m: RangeMap, n: RangeMap, r: RangeMap, s: RangeMap)
    requires Validate(m) && Validate(n) && IsMerge(m, n, r) && IsMerge(m, n, s)
    ensures r == s
  {
    SameBoundaries(r, s);
    forall i | 0 <= i < |r| ensures r[i] == s[i] {
      StartIndex(r, i);
      StartIndex(s, i);
      assert At(r, r[i].start) == r[i] && At(s, r[i].start) == s[i];
    }
  }

  // ---------------------------------------------------------------- merging a map with itself

  /** The keys of one range form an interval. */
  lemma IndexConvex(m: RangeMap, a: Key, k: Key, b: Key)
    requires Validate(m) && AtMost(a, k) && AtMost(k, b) && IndexAt(m, a) == IndexAt(m, b)
    ensures IndexAt(m, k) == IndexAt(m, a)
  {
    OrderLaws();
    ContainsIsIndex(m, k, IndexAt(m, a));
  }

  ghost function FirstUnbounded(m: RangeMap, i: nat): (u: nat)
    requires Validate(m) && i < |m| && forall j :: 0 <= j < i ==> m[j].end != []
    ensures u < |m| && m[u].end == [] && forall j :: 0 <= j < u ==> m[j].end != []
    decreases |m| - i
  {
    if m[i].end == [] then i else FirstUnbounded(m, i + 1)
  }

  /** The ranges that lookups can reach: everything after the first unbounded end is hidden. */
  ghost function Reachable(m: RangeMap): (r: RangeMap)
    requires Validate(m)
    ensures Canonical(r) && r <= m
    ensures r == m <==> Canonical(m)
  {
    m[..FirstUnbounded(m, 0) + 1]
  }

  lemma ReachableAnswersAlike(m: RangeMap, k: Key)
    requires Validate(m)
    ensures IndexAt(Reachable(m), k) == IndexAt(m, k) && At(Reachable(m), k) == At(m, k)
  {
    IndexUnique(m, k, IndexAt(m, k), IndexAt(Reachable(m), k));
  }

  /** Merging a map with itself gives its reachable ranges; so it changes
      nothing exactly when the map is a partition, which Validate alone does not ensure. */
  lemma SelfMerge(m: RangeMap)
    requires Validate(m)
    ensures IsMerge(m, m, Reachable(m))
    ensures forall r :: IsMerge(m, m, r) ==> (r == m <==> Canonical(m))
  {
    var t := Reachable(m);
    forall k: Key
      ensures PickAt(m, m, k) == Pick(At(m, k), Source(0, IndexAt(m, k)), false)
      ensures IndexAt(t, k) == IndexAt(m, k) && At(t, k) == At(m, k)
    {
      ReachableAnswersAlike(m, k);
    }
    forall a: Key, b: Key | AtMost(a, b)
      ensures IndexAt(t, a) == IndexAt(t, b) <==> OneWinner(m, m, a, b)
    {
      if IndexAt(m, a) == IndexAt(m, b) {
        forall k: Key | AtMost(a, k) && AtMost(k, b) ensures IndexAt(m, k) == IndexAt(m, a) {
          IndexConvex(m, a, k, b);
        }
      } else {
        assert PickAt(m, m, b).source != PickAt(m, m, a).source;
        assert AtMost(b, b);
      }
    }
    forall r | IsMerge(m, m, r) ensures r == m <==> Canonical(m) {
      MergeUnique(m, m, r, t);
    }
  }

  /** A validated map that overlaps itself: both ranges contain every key. */
  lemma ValidateAcceptsOverlap() returns (m: RangeMap)
    ensures Validate(m) && |m| == 2 && m[0] != m[1]
    ensures forall k: Key :: m[0].Contains(k) && m[1].Contains(k)
    ensures !Canonical(m)
  {
    m := [Range([], [], [[1]], 1, [1]), Range([], [], [[2]], 1, [2])];
  }

  /** No key lies in two ranges. */
  ghost predicate NoOverlap(m: RangeMap) {
    forall k: Key, i, j :: 0 <= i < j < |m| ==> !(m[i].Contains(k) && m[j].Contains(k))
  }

  /** A validated map is free of overlaps exactly when only its last range is unbounded. */
  lemma NoOverlapIff(m: RangeMap)
    requires Validate(m)
    ensures NoOverlap(m) <==> Canonical(m)
  {
    if Canonical(m) {
      forall k: Key, i, j | 0 <= i < j < |m| ensures !(m[i].Contains(k) && m[j].Contains(k)) {
        if m[i].Contains(k) && m[j].Contains(k) {
          ContainsIsIndex(m, k, i);
          ContainsIsIndex(m, k, j);
        }
      }
    } else {
      var i :| 0 <= i < |m| - 1 && m[i].end == [];
      assert m[0].Contains([]) && m[i + 1].Contains([]);
    }
  }

  // ---------------------------------------------------------------- generations only grow

  lemma GenerationLaw(m: RangeMap, n: RangeMap, k: Key)
    requires Validate(m) && Validate(n)
    ensures MergedGeneration(m, n, k) >= At(m, k).generation
    ensures MergedGeneration(m, n, k) >= At(n, k).generation
    ensures PickAt(m, n, k).tied ==> MergedGeneration(m, n, k) == PickAt(m, n, k).winner.generation + 1
  {
    if PickAt(m, n, k).tied {
      assert Bumped(m, n, RefAt(m, n, k));
    }
  }

  /** Maps that merge at all are not tied at the maximum generation. */
  lemma MergeExcludesTieAtMaximum(m: RangeMap, n: RangeMap, a: RangeMap)
    requires Validate(m) && Validate(n) && IsMerge(m, n, a)
    ensures !TieAtMaximum(m, n)
  {
    forall k: Key ensures !(PickAt(m, n, k).tied && PickAt(m, n, k).winner.generation == MAX_UINT64) {
      GenerationLaw(m, n, k);
      assert At(a, k).generation <= MAX_UINT64;
    }
  }

  // ---------------------------------------------------------------- convergence

  ghost predicate SameRoute(a: Range, b: Range) {
    a.replicas == b.replicas && a.proposalId == b.proposalId
  }

  ghost predicate SameRouting(a: RangeMap, b: RangeMap)
    requires Validate(a) && Validate(b)
  {
    forall k: Key :: SameRoute(At(a, k), At(b, k))
  }

  lemma MergedAt(m: RangeMap, n: RangeMap, r: RangeMap, k: Key)
    requires Validate(m) && Validate(n) && IsMerge(m, n, r)
    ensures SameRoute(At(r, k), PickAt(m, n, k).winner) && At(r, k).generation == MergedGeneration(m, n, k)
  {
  }

  /** a is the outcome of l against n; n against a then goes the same way. */
  lemma SecondPickAgrees(l: Range, n: Range, a: Range, i: nat, j: nat, x: nat, y: nat)
    requires SameRoute(a, PickRange(l, n, i, j).winner) && a.generation >= l.generation && a.generation >= n.generation
    requires PickRange(l, n, i, j).tied ==> a.generation > n.generation
    ensures SameRoute(PickRange(n, a, x, y).winner, a)
  {
  }

  /** Two nodes that exchange maps once, in either order, route every key alike. */
  lemma Converges(m: RangeMap, n: RangeMap, a: RangeMap, b: RangeMap)
    requires Validate(m) && Validate(n) && IsMerge(m, n, a) && IsMerge(n, a, b)
    ensures SameRouting(a, b)
  {
    forall k: Key ensures SameRoute(At(a, k), At(b, k)) {
      MergedAt(m, n, a, k);
      GenerationLaw(m, n, k);
      MergedAt(n, a, b, k);
      SecondPickAgrees(At(m, k), At(n, k), At(a, k), IndexAt(m, k), IndexAt(n, k), IndexAt(n, k), IndexAt(a, k));
    }
  }

  /** Once the routing agrees, no further exchange changes it. */
  lemma RoutingIsStable(a: RangeMap, b: RangeMap, c: RangeMap)
    requires Validate(a) && Validate(b) && SameRouting(a, b) && IsMerge(a, b, c)
    ensures SameRouting(c, a) && SameRouting(c, b)
  {
    forall k: Key ensures SameRoute(At(c, k), At(a, k)) && SameRoute(At(c, k), At(b, k)) {
      MergedAt(a, b, c, k);
      assert SameRoute(At(a, k), At(b, k));
    }
  }

  // ---------------------------------------------------------------- the second exchange cannot fail

  /** The map a source refers to. */
  ghost function Side(m: RangeMap, n: RangeMap, source: Source): RangeMap {
    if source.side == 0 then m else n
  }

  lemma SourceIsIndex(m: RangeMap, n: RangeMap, k: Key)
    requires Validate(m) && Validate(n)
    ensures var p := PickAt(m, n, k);
            var s := Side(m, n, p.source);
            Validate(s) && p.source.index == IndexAt(s, k) && p.winner == At(s, k)
  {
  }

  /** A range of a partition is determined by its keys. */
  lemma KeysFixBounds(a: RangeMap, k: Key, w: Range)
    requires Canonical(a) && WellFormed(w) && w.Contains(k)
    requires forall l: Key :: IndexAt(a, l) == IndexAt(a, k) <==> w.Contains(l)
    ensures At(a, k).start == w.start && At(a, k).end == w.end
  {
    OrderLaws();
    var x := IndexAt(a, k);
    StartIndex(a, x);
    assert w.Contains(a[x].start) && w.Contains(w.start);
    if a[x].end != [] {
      StartIndex(a, x + 1);
      assert !w.Contains(a[x].end);
    }
    if w.end != [] {
      assert !w.Contains(w.end);
    }
  }

  /** A range that wins all of its keys keeps its bounds. */
  lemma WholeRangeKept(m: RangeMap, n: RangeMap, a: RangeMap, k: Key)
    requires Validate(m) && Validate(n) && IsMerge(m, n, a)
    requires forall l: Key :: PickAt(m, n, k).winner.Contains(l) ==> PickAt(m, n, l).source == PickAt(m, n, k).source
    ensures At(a, k).start == PickAt(m, n, k).winner.start && At(a, k).end == PickAt(m, n, k).winner.end
  {
    var w := PickAt(m, n, k).winner;
    SourceIsIndex(m, n, k);
    forall l: Key ensures IndexAt(a, l) == IndexAt(a, k) <==> w.Contains(l) {
      OrderLaws();
      var lo, hi := if AtMost(l, k) then l else k, if AtMost(l, k) then k else l;
      if w.Contains(l) {
        forall x: Key | AtMost(lo, x) && AtMost(x, hi) ensures PickAt(m, n, x).source == PickAt(m, n, lo).source {
          assert w.Contains(x) && w.Contains(lo);
        }
        assert OneWinner(m, n, lo, hi);
      } else {
        SourceIsIndex(m, n, l);
        assert PickAt(m, n, lo).source != PickAt(m, n, hi).source;
        assert AtMost(hi, hi) && !OneWinner(m, n, lo, hi);
      }
    }
    KeysFixBounds(a, k, w);
  }

  /** A range at the maximum generation is either beaten nowhere or tied. */
  lemma MaximumKept(m: RangeMap, n: RangeMap, a: RangeMap, k: Key)
    requires Validate(m) && Validate(n) && IsMerge(m, n, a)
    requires At(n, k).generation == MAX_UINT64 && At(a, k).generation == MAX_UINT64
    ensures At(a, k) == At(n, k)
  {
    MergeExcludesTieAtMaximum(m, n, a);
    var w := PickAt(m, n, k).winner;
    assert w == At(n, k);
    forall l: Key | w.Contains(l) ensures PickAt(m, n, l).source == PickAt(m, n, k).source {
      ContainsIsIndex(n, l, IndexAt(n, k));
      if At(m, k) == w {
        ContainsIsIndex(m, l, IndexAt(m, k));
      } else if At(m, l) == w {
        ContainsIsIndex(m, k, IndexAt(m, l));
      }
      assert !PickAt(m, n, l).tied;
    }
    WholeRangeKept(m, n, a, k);
  }

  /** After m has merged n, n can merge the outcome: no tie at the maximum arises. */
  lemma SecondMergeSucceeds(m: RangeMap, n: RangeMap, a: RangeMap)
    requires Validate(m) && Validate(n) && IsMerge(m, n, a)
    ensures !TieAtMaximum(n, a)
  {
    forall k: Key ensures !(PickAt(n, a, k).tied && PickAt(n, a, k).winner.generation == MAX_UINT64) {
      if PickAt(n, a, k).tied && PickAt(n, a, k).winner.generation == MAX_UINT64 {
        MaximumKept(m, n, a, k);
      }
    }
  }

  // ---------------------------------------------------------------- exchanging the operands

  /** Both maps hold the very same range at k. */
  ghost predicate HeldIdentically(m: RangeMap, n: RangeMap, k: Key)
    requires Validate(m) && Validate(n)
  {
    At(m, k) == At(n, k)
  }

  function Flip(s: Source): Source {
    s.(side := if s.side == 0 then 1 else 0)
  }

  lemma PickMirrors(m: RangeMap, n: RangeMap, k: Key)
    requires Validate(m) && Validate(n)
    ensures PickAt(m, n, k).winner == PickAt(n, m, k).winner
    ensures PickAt(m, n, k).tied == PickAt(n, m, k).tied
    ensures if HeldIdentically(m, n, k)
            then !PickAt(m, n, k).tied && PickAt(m, n, k).source == Source(0, IndexAt(m, k))
            else PickAt(n, m, k).source == Flip(PickAt(m, n, k).source)
  {
    TieBreakAntisymmetric(At(m, k), At(n, k));
  }

  /** Identical holding spreads over everything won by that range. */
  lemma IdentitySpreads(m: RangeMap, n: RangeMap, a: Key, k: Key)
    requires Validate(m) && Validate(n)
    requires PickAt(m, n, a).source == PickAt(m, n, k).source && HeldIdentically(m, n, a)
    ensures HeldIdentically(m, n, k) && IndexAt(n, k) == IndexAt(n, a)
  {
    PickMirrors(m, n, a);
    SourceIsIndex(m, n, k);
    ContainsIsIndex(n, k, IndexAt(n, a));
  }

  lemma OneWinnerMirrors(m: RangeMap, n: RangeMap, a: Key, b: Key)
    requires Validate(m) && Validate(n) && AtMost(a, b) && OneWinner(m, n, a, b)
    ensures OneWinner(n, m, a, b)
  {
    forall k: Key | AtMost(a, k) && AtMost(k, b) ensures PickAt(n, m, k).source == PickAt(n, m, a).source {
      PickMirrors(m, n, k);
      PickMirrors(m, n, a);
      PickMirrors(n, m, k);
      PickMirrors(n, m, a);
      if HeldIdentically(m, n, a) {
        IdentitySpreads(m, n, a, k);
      } else if HeldIdentically(m, n, k) {
        IdentitySpreads(m, n, k, a);
      }
    }
  }

  lemma BumpMirrors(m: RangeMap, n: RangeMap, k: Key)
    requires Validate(m) && Validate(n) && !HeldIdentically(m, n, k)
    requires Bumped(m, n, RefAt(m, n, k))
    ensures Bumped(n, m, RefAt(n, m, k))
  {
    var l: Key :| PickAt(m, n, l).tied && RefAt(m, n, l) == RefAt(m, n, k);
    PickMirrors(m, n, k);
    PickMirrors(m, n, l);
    assert PickAt(n, m, l).tied && RefAt(n, m, l) == RefAt(n, m, k);
  }

  /** Merging in the other order gives the same boundaries, replicas and
      proposals; generations differ by at most one, and only on ranges that
      both maps hold identically. */
  lemma Commutes(m: RangeMap, n: RangeMap, c: RangeMap, d: RangeMap)
    requires Validate(m) && Validate(n) && IsMerge(m, n, c) && IsMerge(n, m, d)
    ensures |c| == |d|
    ensures forall i :: 0 <= i < |c| ==>
              && c[i].start == d[i].start && c[i].end == d[i].end
              && c[i].replicas == d[i].replicas && c[i].proposalId == d[i].proposalId
              && -1 <= c[i].generation - d[i].generation <= 1
              && (c[i].generation != d[i].generation ==> HeldIdentically(m, n, c[i].start))
  {
    forall a: Key, b: Key | AtMost(a, b)
      ensures IndexAt(c, a) == IndexAt(c, b) <==> IndexAt(d, a) == IndexAt(d, b)
    {
      if OneWinner(m, n, a, b) { OneWinnerMirrors(m, n, a, b); }
      if OneWinner(n, m, a, b) { OneWinnerMirrors(n, m, a, b); }
    }
    SameBoundaries(c, d);
    forall i | 0 <= i < |c|
      ensures c[i].replicas == d[i].replicas && c[i].proposalId == d[i].proposalId
      ensures -1 <= c[i].generation - d[i].generation <= 1
      ensures c[i].generation != d[i].generation ==> HeldIdentically(m, n, c[i].start)
    {
      var k := c[i].start;
      StartIndex(c, i);
      StartIndex(d, i);
      PickMirrors(m, n, k);
      assert At(c, k) == c[i] && At(d, k) == d[i];
      if !HeldIdentically(m, n, k) {
        if Bumped(m, n, RefAt(m, n, k)) { BumpMirrors(m, n, k); }
        if Bumped(n, m, RefAt(n, m, k)) { BumpMirrors(n, m, k); }
      }
    }
  }

  // ---------------------------------------------------------------- what a merge means, in plain terms

  /** a comes before b word by word; a list comes before its continuations. */
  ghost predicate ListBefore(a: seq<Key>, b: seq<Key>) {
    exists i :: 0 <= i <= |a| && i <= |b| && a[..i] == b[..i]
                && if i < |a| then i < |b| && Less(a[i], b[i]) else i < |b|
  }

  /** The order of tied ranges: by proposal, then start, then end, then replicas. */
  ghost predicate Precedes(a: Range, b: Range) {
    || Less(a.proposalId, b.proposalId)
    || (a.proposalId == b.proposalId && Less(a.start, b.start))
    || (a.proposalId == b.proposalId && a.start == b.start && Less(a.end, b.end))
    || (a.proposalId == b.proposalId && a.start == b.start && a.end == b.end && ListBefore(a.replicas, b.replicas))
  }

  /** The local range is the newer one, the same one, or the first of two rivals. */
  ghost predicate LocalWins(a: Range, b: Range) {
    a.generation > b.generation || (a.generation == b.generation && (a == b || Precedes(a, b)))
  }

  /** Two different ranges of one generation claim the key. */
  ghost predicate Contested(a: Range, b: Range) {
    a.generation == b.generation && a != b
  }

  ghost function Winner(m: RangeMap, n: RangeMap, k: Key): Range
    requires Validate(m) && Validate(n)
  {
    if LocalWins(At(m, k), At(n, k)) then At(m, k) else At(n, k)
  }

  ghost predicate SameSide(m: RangeMap, n: RangeMap, k: Key, l: Key)
    requires Validate(m) && Validate(n)
  {
    LocalWins(At(m, k), At(n, k)) <==> LocalWins(At(m, l), At(n, l))
  }

  /** The winners of both keys are of the same proposal of the same map. */
  ghost predicate OneProposal(m: RangeMap, n: RangeMap, k: Key, l: Key)
    requires Validate(m) && Validate(n)
  {
    && SameSide(m, n, k, l)
    && Winner(m, n, k).proposalId == Winner(m, n, l).proposalId
    && Winner(m, n, k).generation == Winner(m, n, l).generation
  }

  /** Some key of the winner's proposal is contested. */
  ghost predicate Promoted(m: RangeMap, n: RangeMap, k: Key)
    requires Validate(m) && Validate(n)
  {
    exists l: Key :: Contested(At(m, l), At(n, l)) && OneProposal(m, n, k, l)
  }

  /** The winners of both keys are the same range of the same map. */
  ghost predicate OneRange(m: RangeMap, n: RangeMap, k: Key, l: Key)
    requires Validate(m) && Validate(n)
  {
    && SameSide(m, n, k, l)
    && (if LocalWins(At(m, k), At(n, k)) then IndexAt(m, k) == IndexAt(m, l) else IndexAt(n, k) == IndexAt(n, l))
  }

  lemma {:induction false} CompareReplicasIsOrder(a: seq<Key>, b: seq<Key>)
    ensures CompareReplicas(a, b) < 0 <==> ListBefore(a, b)
  {
    if a == [] || b == [] {
      if a == [] && b != [] {
        assert a[..0] == b[..0];
      }
    } else {
      CompareReplicasIsOrder(a[1..], b[1..]);
      if CompareReplicas(a, b) < 0 {
        if Less(a[0], b[0]) {
          assert a[..0] == b[..0];
        } else {
          OrderLaws();
          var i := FirstDifference(a, b);
        }
      } else if ListBefore(a, b) {
        var i :| 0 <= i <= |a| && i <= |b| && a[..i] == b[..i]
                 && if i < |a| then i < |b| && Less(a[i], b[i]) else i < |b|;
        BeforeInTail(a, b, i);
      }
    }
  }

  /** Lists with the same head: where their tails differ. */
  lemma FirstDifference(a: seq<Key>, b: seq<Key>) returns (i: nat)
    requires a != [] && b != [] && a[0] == b[0] && ListBefore(a[1..], b[1..])
    ensures i <= |a| && i <= |b| && a[..i] == b[..i] && if i < |a| then i < |b| && Less(a[i], b[i]) else i < |b|
  {
    var j :| 0 <= j <= |a[1..]| && j <= |b[1..]| && a[1..][..j] == b[1..][..j]
             && if j < |a[1..]| then j < |b[1..]| && Less(a[1..][j], b[1..][j]) else j < |b[1..]|;
    i := j + 1;
    assert a[..i] == [a[0]] + a[1..][..j] && b[..i] == [b[0]] + b[1..][..j];
  }

  lemma BeforeInTail(a: seq<Key>, b: seq<Key>, i: nat)
    requires a != [] && b != [] && i <= |a| && i <= |b| && a[..i] == b[..i]
    requires if i < |a| then i < |b| && Less(a[i], b[i]) else i < |b|
    ensures Less(a[0], b[0]) || (a[0] == b[0] && ListBefore(a[1..], b[1..]))
  {
    if i > 0 {
      assert a[0] == a[..i][0] == b[0];
      assert a[1..][..i - 1] == a[..i][1..] == b[1..][..i - 1];
    }
  }

  lemma TieBreakIsOrder(a: Range, b: Range)
    ensures CompareTieCandidate(a, b) < 0 <==> Precedes(a, b)
  {
    CompareReplicasIsOrder(a.replicas, b.replicas);
    OrderLaws();
  }

  /** Who is picked at a key, and whether the key counts as tied. */
  lemma PickIsWinner(m: RangeMap, n: RangeMap, k: Key)
    requires Validate(m) && Validate(n)
    ensures var p := PickAt(m, n, k);
            && p.winner == Winner(m, n, k)
            && (p.source.side == 0 <==> LocalWins(At(m, k), At(n, k))) && p.source.side <= 1
            && p.source.index == (if LocalWins(At(m, k), At(n, k)) then IndexAt(m, k) else IndexAt(n, k))
            && (p.tied <==> Contested(At(m, k), At(n, k)))
  {
    TieBreakIsOrder(At(m, k), At(n, k));
    TieBreakAntisymmetric(At(m, k), At(n, k));
  }

  lemma SameReference(m: RangeMap, n: RangeMap, k: Key, l: Key)
    requires Validate(m) && Validate(n)
    ensures RefAt(m, n, k) == RefAt(m, n, l) <==> OneProposal(m, n, k, l)
  {
    PickIsWinner(m, n, k);
    PickIsWinner(m, n, l);
  }

  lemma PromotedIffBumped(m: RangeMap, n: RangeMap, k: Key)
    requires Validate(m) && Validate(n)
    ensures Promoted(m, n, k) <==> Bumped(m, n, RefAt(m, n, k))
  {
    if Promoted(m, n, k) {
      var l: Key :| Contested(At(m, l), At(n, l)) && OneProposal(m, n, k, l);
      PickIsWinner(m, n, l);
      SameReference(m, n, k, l);
    } else if Bumped(m, n, RefAt(m, n, k)) {
      var l: Key :| PickAt(m, n, l).tied && RefAt(m, n, l) == RefAt(m, n, k);
      PickIsWinner(m, n, l);
      SameReference(m, n, k, l);
    }
  }

  lemma OneRangeIsOneSource(m: RangeMap, n: RangeMap, k: Key, l: Key)
    requires Validate(m) && Validate(n)
    ensures PickAt(m, n, k).source == PickAt(m, n, l).source <==> OneRange(m, n, k, l)
  {
    PickIsWinner(m, n, k);
    PickIsWinner(m, n, l);
  }

  /** What the merge of m and n says about key k. */
  ghost predicate SaysAt(m: RangeMap, n: RangeMap, r: RangeMap, k: Key)
    requires Validate(m) && Validate(n) && Validate(r)
  {
    && SameRoute(At(r, k), Winner(m, n, k))
    && At(r, k).generation == Winner(m, n, k).generation + if Promoted(m, n, k) then 1 else 0
  }

  /** The merge in plain terms: at every key the winner's replicas and proposal,
      its generation raised by one exactly when some key of the winner's whole
      proposal is contested, and a boundary exactly where the winning range changes. */
  lemma MergeMeans(m: RangeMap, n: RangeMap, r: RangeMap)
    requires Validate(m) && Validate(n)
    ensures IsMerge(m, n, r) <==>
              && Canonical(r)
              && (forall k: Key :: SaysAt(m, n, r, k))
              && (forall a: Key, b: Key :: AtMost(a, b) ==>
                    (IndexAt(r, a) == IndexAt(r, b) <==>
                       forall k: Key :: AtMost(a, k) && AtMost(k, b) ==> OneRange(m, n, k, a)))
  {
    if Canonical(r) {
      forall k: Key
        ensures SaysAt(m, n, r, k) <==>
                  && At(r, k).replicas == PickAt(m, n, k).winner.replicas
                  && At(r, k).proposalId == PickAt(m, n, k).winner.proposalId
                  && At(r, k).generation == MergedGeneration(m, n, k)
      {
        PickIsWinner(m, n, k);
        PromotedIffBumped(m, n, k);
      }
      forall a: Key, b: Key
        ensures OneWinner(m, n, a, b) <==> forall k: Key :: AtMost(a, k) && AtMost(k, b) ==> OneRange(m, n, k, a)
      {
        forall k: Key ensures PickAt(m, n, k).source == PickAt(m, n, a).source <==> OneRange(m, n, k, a) {
          OneRangeIsOneSource(m, n, k, a);
        }
      }
    }
  }

  /** Keys won by one proposal of one map have one generation after the merge. */
  lemma ProposalMovesAsOne(m: RangeMap, n: RangeMap, r: RangeMap, k: Key, l: Key)
    requires Validate(m) && Validate(n) && IsMerge(m, n, r) && OneProposal(m, n, k, l)
    ensures At(r, k).generation == At(r, l).generation
  {
    MergedAt(m, n, r, k);
    MergedAt(m, n, r, l);
    SameReference(m, n, k, l);
    PickIsWinner(m, n, k);
    PickIsWinner(m, n, l);
  }

  /** A merge is refused exactly when two different ranges of the largest generation claim a key. */
  lemma RefusedIff(m: RangeMap, n: RangeMap)
    requires Validate(m) && Validate(n)
    ensures TieAtMaximum(m, n) <==> exists k: Key :: Contested(At(m, k), At(n, k)) && At(m, k).generation == MAX_UINT64
  {
    forall k: Key
      ensures PickAt(m, n, k).tied && PickAt(m, n, k).winner.generation == MAX_UINT64 <==>
                Contested(At(m, k), At(n, k)) && At(m, k).generation == MAX_UINT64
    {
      PickIsWinner(m, n, k);
    }
  }
}
