/** The recursive repair walk: roots are compared, and ranges that differ are
    split until they are small enough to be diffed row by row. */
module RepairWalk {
  import opened Keys
  import opened Versioning
  import opened SplitRange
  import opened Merkle
  import opened Repair

  /** The threshold as the unsigned number it is converted to. */
  function Threshold(w: Walk): nat {
    w.leafItemThreshold % 0x1_0000_0000_0000_0000
  }

  predicate ShouldStop(w: Walk, depth: int, itemCount: nat) {
    depth >= w.maxDepth || itemCount <= Threshold(w)
  }

  /** A split that succeeds loses no key of the range it divides. */
  ghost predicate LosesNothing(w: Walk) {
    forall start: Key, end: Key :: w.split(start, end, w.fanout).Split? ==>
      forall k: Key :: InBucket(Bucket(start, end), k) ==>
        exists i :: 0 <= i < |w.split(start, end, w.fanout).buckets|
            && InBucket(w.split(start, end, w.fanout).buckets[i], k)
  }

  /** Within the ranges singled out by ok, splitting stays inside the range and leads to such ranges again. */
  ghost predicate StaysInside(w: Walk, ok: Bucket -> bool) {
    forall b :: ok(b) && w.split(b.start, b.end, w.fanout).Split? ==>
      && Contained(w.split(b.start, b.end, w.fanout).buckets, b.start, b.end)
      && forall i :: 0 <= i < |w.split(b.start, b.end, w.fanout).buckets| ==>
          ok(w.split(b.start, b.end, w.fanout).buckets[i])
  }

  /** Nothing but repairs has happened; without an error the keys of b are
      repaired; if the walk is confined, no other key changes. */
  ghost predicate Walked(owns: Key -> bool, l0: Rows, p0: Rows, l1: Rows, p1: Rows, b: Bucket, confined: bool,
                         err: bool) {
    && OnlyRepairs(owns, l0, p0, l1, p1)
    && (!err ==> forall k: Key :: InBucket(b, k) ==> Repaired(owns, l0, p0, l1, p1, k))
    && (confined ==> forall k: Key :: !InBucket(b, k) ==> Untouched(l0, p0, l1, p1, k))
  }

  /** The first i children have been walked. */
  ghost predicate WalkedChildren(owns: Key -> bool, l0: Rows, p0: Rows, l1: Rows, p1: Rows,
                                 b: Bucket, children: seq<Bucket>, i: nat, confined: bool, err: bool) {
    && i <= |children|
    && OnlyRepairs(owns, l0, p0, l1, p1)
    && (!err ==> forall k: Key, j :: 0 <= j < i && InBucket(children[j], k) ==> Repaired(owns, l0, p0, l1, p1, k))
    && (confined ==> forall k: Key :: !InBucket(b, k) ==> Untouched(l0, p0, l1, p1, k))
  }

  lemma WalkChild(owns: Key -> bool, l0: Rows, p0: Rows, l1: Rows, p1: Rows, l2: Rows, p2: Rows, b: Bucket,
                  children: seq<Bucket>, i: nat, confined: bool, childConfined: bool, err: bool, childErr: bool)
    requires WalkedChildren(owns, l0, p0, l1, p1, b, children, i, confined, err) && i < |children|
    requires Walked(owns, l1, p1, l2, p2, children[i], childConfined, childErr) && (confined ==> childConfined)
    requires confined ==> Contained(children, b.start, b.end)
    ensures WalkedChildren(owns, l0, p0, l2, p2, b, children, i + 1, confined, err || childErr)
  {
    forall k: Key
      ensures Moved(owns, l0, p0, l2, p2, k)
      ensures !err && !childErr ==> forall j :: 0 <= j < i + 1 && InBucket(children[j], k) ==>
                Repaired(owns, l0, p0, l2, p2, k)
      ensures confined && !InBucket(b, k) ==> Untouched(l0, p0, l2, p2, k)
    {
      assert Moved(owns, l0, p0, l1, p1, k) && Moved(owns, l1, p1, l2, p2, k);
      MovesCompose(owns, l0, p0, l1, p1, l2, p2, k);
      if confined && InBucket(children[i], k) {
        assert InBucket(Bucket(b.start, b.end), k);
      }
    }
  }

  /** If all children have been walked and none of the range was lost, the range has been walked. */
  lemma WalkComplete(owns: Key -> bool, l0: Rows, p0: Rows, l1: Rows, p1: Rows, b: Bucket, children: seq<Bucket>,
                     confined: bool, err: bool)
    requires WalkedChildren(owns, l0, p0, l1, p1, b, children, |children|, confined, err)
    requires forall k: Key :: InBucket(b, k) ==> exists i :: 0 <= i < |children| && InBucket(children[i], k)
    ensures Walked(owns, l0, p0, l1, p1, b, confined, err)
  {
  }

  lemma LeafIsWalked(owns: Key -> bool, l0: Rows, p0: Rows, l1: Rows, p1: Rows, b: Bucket, confined: bool, err: bool)
    requires LeafDone(owns, l0, p0, l1, p1, b, err)
    ensures Walked(owns, l0, p0, l1, p1, b, confined, err)
  {
    forall k: Key
      ensures Moved(owns, l0, p0, l1, p1, k)
      ensures !err && InBucket(b, k) ==> Repaired(owns, l0, p0, l1, p1, k)
      ensures !InBucket(b, k) ==> Untouched(l0, p0, l1, p1, k)
    {
      assert LeafKey(owns, l0, p0, l1, p1, b, err, k);
    }
  }

  /** Replicas that hold the same rows in a range need no repair there. */
  lemma AgreementIsWalked(owns: Key -> bool, l: Rows, p: Rows, b: Bucket, confined: bool)
    requires Within(l, b) == Within(p, b)
    ensures Walked(owns, l, p, l, p, b, confined, false)
  {
    forall k: Key | InBucket(b, k) ensures Repaired(owns, l, p, l, p, k) {
      assert k in l <==> k in Within(l, b);
      assert k in p <==> k in Within(p, b);
      assert Look(l, k) == Look(p, k);
    }
  }

  // ---------------------------------------------------------------- what root comparison relies on

  /** Whatever single repairs have been made, the row lists of any range can be compared by their roots. */
  ghost predicate DigestsServe(w: Walk, l0: Rows, p0: Rows) {
    forall l, p, b :: OnlyRepairs(w.owns, l0, p0, l, p) ==> ComparableOver(w.hash, w.encode, l, p, b)
  }

  lemma DigestsServeOn(w: Walk, l0: Rows, p0: Rows, l1: Rows, p1: Rows)
    requires DigestsServe(w, l0, p0) && OnlyRepairs(w.owns, l0, p0, l1, p1)
    ensures DigestsServe(w, l1, p1)
  {
    forall l, p, b | OnlyRepairs(w.owns, l1, p1, l, p) ensures ComparableOver(w.hash, w.encode, l, p, b) {
      OnlyRepairsCompose(w.owns, l0, p0, l1, p1, l, p);
    }
  }

  lemma DigestsServeNow(w: Walk, l: Rows, p: Rows, b: Bucket)
    requires DigestsServe(w, l, p)
    ensures ComparableOver(w.hash, w.encode, l, p, b)
  {
    assert OnlyRepairs(w.owns, l, p, l, p);
  }

  /** Compare roots over a range; on a mismatch also report the larger row count. */
  method CompareRoots(w: Walk, local: Rows, peer: Rows, b: Bucket) returns (equal: bool, mismatchCount: nat)
    requires ComparableOver(w.hash, w.encode, local, peer, b)
    ensures equal <==> Within(local, b) == Within(peer, b)
  {
    var localRoot := ComputeMerkleRoot(w.hash, w.encode, local, b);
    var peerRoot := ComputeMerkleRoot(w.hash, w.encode, peer, b);
    RootsAgreeIff(w.hash, w.encode, local, peer, b, localRoot, peerRoot);
    equal := localRoot.count == peerRoot.count && localRoot.digest == peerRoot.digest;
    mismatchCount := localRoot.count;
    if peerRoot.count > mismatchCount {
      mismatchCount := peerRoot.count;
    }
  }

  method WalkLeaf(w: Walk, local: Replica, peer: Replica, b: Bucket, ghost confined: bool) returns (err: bool)
    requires local != peer
    modifies local, peer
    ensures Walked(w.owns, old(local.rows), old(peer.rows), local.rows, peer.rows, b, confined, err)
    ensures err ==> w.faulty || !PeerOwnsAll(w, b)
  {
    err := DiffLeaf(w, local, peer, b);
    LeafIsWalked(w.owns, old(local.rows), old(peer.rows), local.rows, peer.rows, b, confined, err);
  }

  /** Nothing fails, and the peer owns every range the walk can come to. */
  ghost predicate Smooth(w: Walk, ok: Bucket -> bool) {
    !w.faulty && forall b :: ok(b) ==> PeerOwnsAll(w, b)
  }

  ghost predicate AlwaysSplits(w: Walk) {
    forall start: Key, end: Key :: w.split(start, end, w.fanout).Split?
  }

  lemma ChildrenFacts(w: Walk, ok: Bucket -> bool, b: Bucket)
    requires LosesNothing(w) && StaysInside(w, ok) && w.split(b.start, b.end, w.fanout).Split?
    ensures var children := w.split(b.start, b.end, w.fanout).buckets;
            && (ok(b) ==> Contained(children, b.start, b.end) && forall i :: 0 <= i < |children| ==> ok(children[i]))
            && (forall k: Key :: InBucket(b, k) ==> exists i :: 0 <= i < |children| && InBucket(children[i], k))
  {
    assert b == Bucket(b.start, b.end);
  }

  lemma NothingWalked(owns: Key -> bool, l: Rows, p: Rows, b: Bucket, confined: bool)
    ensures Walked(owns, l, p, l, p, b, confined, true)
  {
  }

  /** Compare roots; on a mismatch either diff the contents or descend. */
  method DiffNode(w: Walk, ghost ok: Bucket -> bool, local: Replica, peer: Replica, b: Bucket,
                  depth: int) returns (err: bool)
    requires local != peer && LosesNothing(w) && StaysInside(w, ok) && DigestsServe(w, local.rows, peer.rows)
    modifies local, peer
    ensures Walked(w.owns, old(local.rows), old(peer.rows), local.rows, peer.rows, b, ok(b), err)
    ensures err && ok(b) && AlwaysSplits(w) ==> !Smooth(w, ok)
    decreases w.maxDepth - depth, 1
  {
    ghost var l0, p0 := local.rows, peer.rows;
    NothingWalked(w.owns, l0, p0, b, ok(b));
    var localFails := Fails(w);
    var peerFails := Fails(w);
    if localFails || peerFails || !w.peerOwnsRange(b) {
      return true;
    }
    DigestsServeNow(w, l0, p0, b);
    var equal, mismatchCount := CompareRoots(w, local.rows, peer.rows, b);
    if equal {
      AgreementIsWalked(w.owns, l0, p0, b, ok(b));
      return false;
    }
    if ShouldStop(w, depth, mismatchCount) {
      err := WalkLeaf(w, local, peer, b, ok(b));
      return;
    }
    var buckets := w.split(b.start, b.end, w.fanout);
    if !buckets.Split? {
      return true;
    }
    var children := buckets.buckets;
    if children == [b] {
      err := WalkLeaf(w, local, peer, b, ok(b));
      return;
    }
    ChildrenFacts(w, ok, b);
    err := DiffChildren(w, ok, local, peer, b, children, depth);
    WalkComplete(w.owns, l0, p0, local.rows, peer.rows, b, children, ok(b), err);
  }

  /** Walk the children one after the other; a failing child does not stop its siblings. */
  method DiffChildren(w: Walk, ghost ok: Bucket -> bool, local: Replica, peer: Replica, b: Bucket,
                      children: seq<Bucket>,
                      depth: int)
      returns (err: bool)
    requires local != peer && LosesNothing(w) && StaysInside(w, ok) && DigestsServe(w, local.rows, peer.rows)
    requires depth < w.maxDepth
    requires ok(b) ==> Contained(children, b.start, b.end) && forall i :: 0 <= i < |children| ==> ok(children[i])
    modifies local, peer
    ensures WalkedChildren(w.owns, old(local.rows), old(peer.rows), local.rows, peer.rows, b, children, |children|,
                           ok(b), err)
    ensures err && ok(b) && AlwaysSplits(w) ==> !Smooth(w, ok)
    decreases w.maxDepth - depth, 0
  {
    ghost var l0, p0 := local.rows, peer.rows;
    WalkStart(w.owns, l0, p0, b, children, ok(b));
    err := false;
    for i := 0 to |children|
      invariant WalkedChildren(w.owns, l0, p0, local.rows, peer.rows, b, children, i, ok(b), err)
      invariant DigestsServe(w, local.rows, peer.rows) && (err && ok(b) && AlwaysSplits(w) ==> !Smooth(w, ok))
    {
      ghost var l1, p1 := local.rows, peer.rows;
      var childErr := DiffNode(w, ok, local, peer, children[i], depth + 1);
      DigestsServeOn(w, l1, p1, local.rows, peer.rows);
      WalkChild(w.owns, l0, p0, l1, p1, local.rows, peer.rows, b, children, i, ok(b), ok(children[i]), err, childErr);
      err := err || childErr;
    }
  }

  lemma WalkStart(owns: Key -> bool, l: Rows, p: Rows, b: Bucket, children: seq<Bucket>, confined: bool)
    ensures WalkedChildren(owns, l, p, l, p, b, children, 0, confined, false)
  {
  }

  // ---------------------------------------------------------------- with the interpolating split

  ghost predicate Interpolates(w: Walk) {
    forall s: Key, e: Key, n: int :: w.split(s, e, n) == if n <= 0 then BadCount else Split(Buckets(s, e, n))
  }

  predicate NonEmpty(b: Bucket) {
    b.end == [] || Less(b.start, b.end)
  }

  /** Ranges inside [start, end) whose own end is unbounded or at least eight
      bytes long; none of them empty if [start, end) is not. */
  ghost function ExactWithin(start: Key, end: Key): Bucket -> bool {
    (b: Bucket) =>
      && (b.end == [] || |b.end| >= 8)
      && (NonEmpty(Bucket(start, end)) ==> NonEmpty(b))
      && forall k: Key :: InBucket(b, k) ==> InBucket(Bucket(start, end), k)
  }

  /** A bucket of an exact range is exact, and not empty if the range is not. */
  lemma BucketIsExact(b: Bucket, n: nat, i: nat)
    requires (b.end == [] || |b.end| >= 8) && i < |Buckets(b.start, b.end, n)|
    ensures var c := Buckets(b.start, b.end, n)[i]; (c.end == [] || |c.end| >= 8) && (NonEmpty(b) ==> NonEmpty(c))
  {
    var m := Interior(b.start, b.end, n);
    if i < m {
      BoundariesIncrease(b.start, b.end, n, i, i + 1);
    } else if 0 < m && b.end != [] {
      LastBoundaryBelowEnd(b.start, b.end, n);
    }
  }

  lemma InterpolationLosesNothing(w: Walk, start: Key, end: Key)
    requires Interpolates(w)
    ensures LosesNothing(w) && StaysInside(w, ExactWithin(start, end))
  {
    forall s: Key, e: Key | w.split(s, e, w.fanout).Split?
      ensures forall k: Key :: InBucket(Bucket(s, e), k) ==>
                exists i :: 0 <= i < |w.split(s, e, w.fanout).buckets|
                    && InBucket(w.split(s, e, w.fanout).buckets[i], k)
    {
      SplitCovers(s, e, w.fanout);
    }
    forall b | ExactWithin(start, end)(b) && w.split(b.start, b.end, w.fanout).Split?
      ensures Contained(w.split(b.start, b.end, w.fanout).buckets, b.start, b.end)
      ensures forall i :: 0 <= i < |w.split(b.start, b.end, w.fanout).buckets| ==>
                ExactWithin(start, end)(w.split(b.start, b.end, w.fanout).buckets[i])
    {
      LongEndRespected(b.start, b.end, w.fanout);
      ContainedIff(b.start, b.end, w.fanout);
      forall i | 0 <= i < |Buckets(b.start, b.end, w.fanout)|
        ensures ExactWithin(start, end)(Buckets(b.start, b.end, w.fanout)[i])
      {
        BucketIsExact(b, w.fanout, i);
        assert b == Bucket(b.start, b.end);
      }
    }
  }

  /** One repair round, for every fanout, depth limit and leaf threshold and
      whatever fails on the way: nothing happens to either store but repairs of
      single copies; without an error every key of the range is repaired; and if
      the end of the range is unbounded or at least eight bytes long, nothing
      outside changes, so that both stores end up exactly as one flat diff of the
      whole range would leave them. There is no error if nothing fails and the
      peer owns what it is asked about. */
  method RepairRange(w: Walk, local: Replica, peer: Replica, start: Key, end: Key) returns (err: bool)
    requires local != peer && Interpolates(w) && DigestsServe(w, local.rows, peer.rows)
    modifies local, peer
    ensures OnlyRepairs(w.owns, old(local.rows), old(peer.rows), local.rows, peer.rows)
    ensures !err ==> forall k: Key :: InBucket(Bucket(start, end), k) ==>
              Repaired(w.owns, old(local.rows), old(peer.rows), local.rows, peer.rows, k)
    ensures end == [] || |end| >= 8 ==> forall k: Key :: !InBucket(Bucket(start, end), k) ==>
              Untouched(old(local.rows), old(peer.rows), local.rows, peer.rows, k)
    ensures (end == [] || |end| >= 8) && !err ==>
              FlatRepair(w.owns, old(local.rows), old(peer.rows), local.rows, peer.rows, Bucket(start, end))
    ensures (end == [] || |end| >= 8) && w.fanout >= 1 && Smooth(w, ExactWithin(start, end)) ==> !err
  {
    InterpolationLosesNothing(w, start, end);
    assert w.fanout >= 1 ==> AlwaysSplits(w);
    err := DiffNode(w, ExactWithin(start, end), local, peer, Bucket(start, end), 0);
  }

  // ---------------------------------------------------------------- what the stores must be like

  function HeldRows(l: Rows, p: Rows): set<Row> {
    (set k | k in l :: Row(k, l[k])) + (set k | k in p :: Row(k, p[k]))
  }

  /** A sorted list of rows that one of the stores holds. */
  predicate Drawn(l: Rows, p: Rows, s: seq<Row>) {
    KeySorted(s) && forall r :: r in s ==> r in HeldRows(l, p)
  }

  /** Whatever single repairs have been made, the stores hold rows they held at the beginning. */
  lemma RepairsDraw(owns: Key -> bool, l0: Rows, p0: Rows, l: Rows, p: Rows, b: Bucket, s: seq<Row>)
    requires OnlyRepairs(owns, l0, p0, l, p) && (IsListing(s, Within(l, b)) || IsListing(s, Within(p, b)))
    ensures Drawn(l0, p0, s)
  {
    forall r | r in s ensures r in HeldRows(l0, p0) {
      assert Moved(owns, l0, p0, l, p, r.key);
      assert Look(l, r.key) == Holds(r.envelope) || Look(p, r.key) == Holds(r.envelope);
      assert Look(l0, r.key) == Holds(r.envelope) || Look(p0, r.key) == Holds(r.envelope);
    }
  }

  /** Conditions on the rows held before the round: their lengths are of machine
      size, their stored values determine them, and the digests of the sorted
      lists made of them do not collide. */
  lemma HeldRowsServe(w: Walk, l0: Rows, p0: Rows)
    requires forall r :: r in HeldRows(l0, p0) ==> ShortRow(w.encode, r)
    requires forall q, r :: q in HeldRows(l0, p0) && r in HeldRows(l0, p0) ==>
               w.encode(q.envelope) == w.encode(r.envelope) ==> q.envelope == r.envelope
    requires forall s, t :: Drawn(l0, p0, s) && Drawn(l0, p0, t) ==> NoCollision(w.hash, w.encode, s, t)
    ensures DigestsServe(w, l0, p0)
  {
    forall l, p, b | OnlyRepairs(w.owns, l0, p0, l, p) ensures ComparableOver(w.hash, w.encode, l, p, b) {
      forall s, t | IsListing(s, Within(l, b)) && IsListing(t, Within(p, b))
        ensures Comparable(w.hash, w.encode, s, t)
      {
        RepairsDraw(w.owns, l0, p0, l, p, b, s);
        RepairsDraw(w.owns, l0, p0, l, p, b, t);
      }
    }
  }

  /** A sorted list over two rows of one key has at most one row. */
  lemma DrawnFromOneKey(k: Key, d: Envelope, e: Envelope, s: seq<Row>)
    requires Drawn(map[k := d], map[k := e], s)
    ensures s == [] || s == [Row(k, d)] || s == [Row(k, e)]
  {
    if |s| > 1 {
      assert s[0] in s && s[1] in s;
      LessIrreflexive(k);
    } else if |s| == 1 {
      assert s[0] in s;
    }
  }

  lemma TwoRowsServe(w: Walk, k: Key, d: Envelope, e: Envelope)
    requires ShortRow(w.encode, Row(k, d)) && ShortRow(w.encode, Row(k, e)) && w.encode(d) != w.encode(e)
    requires w.hash(EncodeRows(w.encode, [Row(k, d)])) != w.hash(EncodeRows(w.encode, [Row(k, e)]))
    ensures DigestsServe(w, map[k := d], map[k := e])
  {
    var l, p := map[k := d], map[k := e];
    forall s, t | Drawn(l, p, s) && Drawn(l, p, t) ensures NoCollision(w.hash, w.encode, s, t) {
      DrawnFromOneKey(k, d, e, s);
      DrawnFromOneKey(k, d, e, t);
    }
    HeldRowsServe(w, l, p);
  }

  /** The conditions of a repair round can be met by a digest of eight bytes and
      two stores that differ. */
  lemma RepairCanBegin() returns (w: Walk, l: Rows, p: Rows)
    ensures Interpolates(w) && DigestsServe(w, l, p) && l != p && w.fanout >= 1
    ensures (forall s :: |w.hash(s)| == 8) && forall start: Key, end: Key :: Smooth(w, ExactWithin(start, end))
  {
    var k: Key := [1];
    var d, e := Envelope(1, map[], 0, false, [2]), Envelope(1, map[k := 1], 0, false, [3]);
    var encode := (x: Envelope) => x.value;
    var stream, other := EncodeRows(encode, [Row(k, d)]), EncodeRows(encode, [Row(k, e)]);
    var hash := (s: seq<byte>) => if s == stream then Bytes8(1) else Bytes8(2);
    l, p := map[k := d], map[k := e];
    w := Walk(hash, encode, 16, 1, 4, (s: Key, t: Key, n: int) => if n <= 0 then BadCount else Split(Buckets(s, t, n)),
              k => true, k => true, b => true, false);
    assert stream != other by {
      if stream == other {
        EncodeRowsInjective(encode, [Row(k, d)], [Row(k, e)]);
      }
    }
    PrefixOfBytes(1);
    PrefixOfBytes(2);
    TwoRowsServe(w, k, d, e);
    assert l[k] != p[k];
  }

  /** A node is a leaf at the depth limit, or when it has no more rows than the
      threshold; a negative threshold is read as a very large one. */
  lemma StopsIff(w: Walk, depth: int, count: nat)
    requires -0x8000_0000_0000_0000 <= w.leafItemThreshold < 0x8000_0000_0000_0000
    ensures ShouldStop(w, depth, count) <==>
              || depth >= w.maxDepth
              || count <= (if w.leafItemThreshold >= 0 then w.leafItemThreshold
                           else 0x1_0000_0000_0000_0000 + w.leafItemThreshold)
  {
  }
}
