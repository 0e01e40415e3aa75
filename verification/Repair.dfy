/** Anti-entropy: diffing two replicas over a key range and repairing both. */
module Repair {
  import opened Keys
  import opened Versioning
  import opened SplitRange
  import opened Merkle

  // ---------------------------------------------------------------- the flat, key-by-key repair

  /** What the local copy becomes when it meets the peer's. */
  ghost function FixLocal(local: Copy, peer: Copy): Copy {
    if local.Absent? then peer
    else if peer.Holds? && Relate(local.envelope.clock, peer.envelope.clock) == Before then peer
    else local
  }

  ghost function FixPeer(local: Copy, peer: Copy): Copy {
    if peer.Absent? then local
    else if local.Holds? && Relate(local.envelope.clock, peer.envelope.clock) == After then local
    else peer
  }

  /** At key k the repair has been carried out; the local side takes only keys it owns. */
  ghost predicate Repaired(owns: Key -> bool, l0: Rows, p0: Rows, l1: Rows, p1: Rows, k: Key) {
    && Look(l1, k) == (if owns(k) then FixLocal(Look(l0, k), Look(p0, k)) else Look(l0, k))
    && Look(p1, k) == FixPeer(Look(l0, k), Look(p0, k))
  }

  /** At key k each side has been repaired or is as it was. */
  ghost predicate Moved(owns: Key -> bool, l0: Rows, p0: Rows, l1: Rows, p1: Rows, k: Key) {
    && (Look(l1, k) == Look(l0, k) || (owns(k) && Look(l1, k) == FixLocal(Look(l0, k), Look(p0, k))))
    && (Look(p1, k) == Look(p0, k) || Look(p1, k) == FixPeer(Look(l0, k), Look(p0, k)))
  }

  ghost predicate Untouched(l0: Rows, p0: Rows, l1: Rows, p1: Rows, k: Key) {
    Look(l1, k) == Look(l0, k) && Look(p1, k) == Look(p0, k)
  }

  /** Every key of b is repaired and no other key changes. */
  ghost predicate FlatRepair(owns: Key -> bool, l0: Rows, p0: Rows, l1: Rows, p1: Rows, b: Bucket) {
    forall k: Key :: if InBucket(b, k) then Repaired(owns, l0, p0, l1, p1, k) else Untouched(l0, p0, l1, p1, k)
  }

  /** Nothing has happened to the stores but repairs of single copies. */
  ghost predicate OnlyRepairs(owns: Key -> bool, l0: Rows, p0: Rows, l1: Rows, p1: Rows) {
    forall k: Key :: Moved(owns, l0, p0, l1, p1, k)
  }

  /** The flat repair has one outcome. */
  lemma FlatRepairDeterministic(owns: Key -> bool, l0: Rows, p0: Rows, l1: Rows, p1: Rows, l2: Rows, p2: Rows,
                                b: Bucket)
    requires FlatRepair(owns, l0, p0, l1, p1, b) && FlatRepair(owns, l0, p0, l2, p2, b)
    ensures l1 == l2 && p1 == p2
  {
    forall k: Key ensures Look(l1, k) == Look(l2, k) && Look(p1, k) == Look(p2, k) {
      assert InBucket(b, k) || !InBucket(b, k);
    }
    SameLooks(l1, l2);
    SameLooks(p1, p2);
  }

  lemma SameLooks(a: Rows, b: Rows)
    requires forall k: Key :: Look(a, k) == Look(b, k)
    ensures a == b
  {
    assert forall k :: k in a ==> Look(a, k) == Look(b, k);
    assert forall k :: k in b ==> Look(a, k) == Look(b, k);
  }

  /** Fixing one side does not change what the other side is to become. */
  lemma FixesCommute(l: Copy, p: Copy)
    ensures var x, y := FixLocal(l, p), FixPeer(l, p);
            && FixLocal(x, y) == FixLocal(x, p) == FixLocal(l, y) == x
            && FixPeer(x, y) == FixPeer(l, y) == FixPeer(x, p) == y
  {
  }

  /** Single repairs add up to a repair, in any order and however often they are repeated. */
  lemma MovesCompose(owns: Key -> bool, l0: Rows, p0: Rows, l1: Rows, p1: Rows, l2: Rows, p2: Rows, k: Key)
    requires Moved(owns, l0, p0, l1, p1, k) && Moved(owns, l1, p1, l2, p2, k)
    ensures Moved(owns, l0, p0, l2, p2, k)
    ensures Repaired(owns, l0, p0, l1, p1, k) || Repaired(owns, l1, p1, l2, p2, k) ==> Repaired(owns, l0, p0, l2, p2, k)
  {
    FixesCommute(Look(l0, k), Look(p0, k));
  }

  lemma OnlyRepairsCompose(owns: Key -> bool, l0: Rows, p0: Rows, l1: Rows, p1: Rows, l2: Rows, p2: Rows)
    requires OnlyRepairs(owns, l0, p0, l1, p1) && OnlyRepairs(owns, l1, p1, l2, p2)
    ensures OnlyRepairs(owns, l0, p0, l2, p2)
  {
    forall k: Key ensures Moved(owns, l0, p0, l2, p2, k) {
      MovesCompose(owns, l0, p0, l1, p1, l2, p2, k);
    }
  }

  // ---------------------------------------------------------------- merging two sorted row lists

  /** The peer's row r is to be pulled: the local side lacks it or is older. */
  ghost predicate ToPull(local: seq<Row>, peer: seq<Row>, r: Row) {
    && r in peer
    && (forall l :: l in local && l.key == r.key ==> Relate(l.envelope.clock, r.envelope.clock) == Before)
  }

  ghost predicate ToPush(local: seq<Row>, peer: seq<Row>, r: Row) {
    && r in local
    && (forall p :: p in peer && p.key == r.key ==> Relate(r.envelope.clock, p.envelope.clock) == After)
  }

  /** The first i local and j peer rows have been dealt with; their keys are
      below all keys still to come. */
  ghost predicate Progress(local: seq<Row>, peer: seq<Row>, i: nat, j: nat, pulls: seq<Row>, pushes: seq<Row>) {
    && i <= |local| && j <= |peer|
    && (forall a, b :: 0 <= a < i && j <= b < |peer| ==> Less(local[a].key, peer[b].key))
    && (forall a, b :: i <= a < |local| && 0 <= b < j ==> Less(peer[b].key, local[a].key))
    && (forall r :: r in pulls <==> r in peer[..j] && ToPull(local, peer, r))
    && (forall r :: r in pushes <==> r in local[..i] && ToPush(local, peer, r))
  }

  /** A key between consecutive keys of a sorted list is not in it. */
  lemma KeyAbsent(s: seq<Row>, i: nat, k: Key)
    requires KeySorted(s) && i <= |s|
    requires forall a :: 0 <= a < i ==> Less(s[a].key, k)
    requires i < |s| ==> Less(k, s[i].key)
    ensures forall r :: r in s ==> r.key != k
  {
    OrderLaws();
  }

  lemma TakeOne(s: seq<Row>, i: nat)
    requires i < |s|
    ensures forall r :: r in s[..i + 1] <==> r in s[..i] || r == s[i]
  {
    assert s[..i + 1] == s[..i] + [s[i]];
  }

  lemma PushStep(local: seq<Row>, peer: seq<Row>, i: nat, j: nat, pulls: seq<Row>, pushes: seq<Row>)
    requires KeySorted(local) && KeySorted(peer) && Progress(local, peer, i, j, pulls, pushes)
    requires i < |local| && (j < |peer| ==> Less(local[i].key, peer[j].key))
    ensures Progress(local, peer, i + 1, j, pulls, pushes + [local[i]])
  {
    KeyAbsent(peer, j, local[i].key);
    TakeOne(local, i);
    assert forall b :: j <= b < |peer| ==> Less(local[i].key, peer[b].key) by {
      OrderLaws();
    }
    assert ToPush(local, peer, local[i]);
  }

  lemma PullStep(local: seq<Row>, peer: seq<Row>, i: nat, j: nat, pulls: seq<Row>, pushes: seq<Row>)
    requires KeySorted(local) && KeySorted(peer) && Progress(local, peer, i, j, pulls, pushes)
    requires j < |peer| && (i < |local| ==> Less(peer[j].key, local[i].key))
    ensures Progress(local, peer, i, j + 1, pulls + [peer[j]], pushes)
  {
    KeyAbsent(local, i, peer[j].key);
    TakeOne(peer, j);
    assert forall a :: i <= a < |local| ==> Less(peer[j].key, local[a].key) by {
      OrderLaws();
    }
    assert ToPull(local, peer, peer[j]);
  }

  lemma OnlyRow(s: seq<Row>, i: nat)
    requires KeySorted(s) && i < |s|
    ensures forall r :: r in s && r.key == s[i].key ==> r == s[i]
  {
    forall r | r in s && r.key == s[i].key ensures r == s[i] {
      var a :| 0 <= a < |s| && s[a] == r;
      LessIrreflexive(s[i].key);
    }
  }

  /** Same key on both sides: the causally newer side, if any, wins. */
  lemma BothStep(local: seq<Row>, peer: seq<Row>, i: nat, j: nat, pulls: seq<Row>, pushes: seq<Row>, rel: Relation)
    requires KeySorted(local) && KeySorted(peer) && Progress(local, peer, i, j, pulls, pushes)
    requires i < |local| && j < |peer| && local[i].key == peer[j].key
    requires rel == Relate(local[i].envelope.clock, peer[j].envelope.clock)
    ensures Progress(local, peer, i + 1, j + 1, if rel == Before then pulls + [peer[j]] else pulls,
                     if rel == After then pushes + [local[i]] else pushes)
  {
    TakeOne(local, i);
    TakeOne(peer, j);
    OnlyRow(local, i);
    OnlyRow(peer, j);
    assert local[i] in local && peer[j] in peer;
    assert ToPull(local, peer, peer[j]) <==> rel == Before;
    assert ToPush(local, peer, local[i]) <==> rel == After;
  }

  /** The merge of two sorted lists finds exactly the rows that are missing or outdated on the other side. */
  method MergeDiff(local: seq<Row>, peer: seq<Row>) returns (pulls: seq<Row>, pushes: seq<Row>)
    requires KeySorted(local) && KeySorted(peer)
    ensures forall r :: r in pulls <==> ToPull(local, peer, r)
    ensures forall r :: r in pushes <==> ToPush(local, peer, r)
  {
    pulls, pushes := [], [];
    var i, j := 0, 0;
    while i < |local| && j < |peer|
      invariant Progress(local, peer, i, j, pulls, pushes)
      decreases |local| - i + |peer| - j
    {
      if Less(local[i].key, peer[j].key) {
        PushStep(local, peer, i, j, pulls, pushes);
        pushes, i := pushes + [local[i]], i + 1;
      } else if Less(peer[j].key, local[i].key) {
        PullStep(local, peer, i, j, pulls, pushes);
        pulls, j := pulls + [peer[j]], j + 1;
      } else {
        LessTotal(local[i].key, peer[j].key);
        var rel := Compare(local[i].envelope.clock, peer[j].envelope.clock);
        BothStep(local, peer, i, j, pulls, pushes, rel);
        match rel {
          case Before => pulls := pulls + [peer[j]];
          case After => pushes := pushes + [local[i]];
          case _ =>
        }
        i, j := i + 1, j + 1;
      }
    }
    while i < |local|
      invariant Progress(local, peer, i, j, pulls, pushes) && (i == |local| || j == |peer|)
      decreases |local| - i
    {
      PushStep(local, peer, i, j, pulls, pushes);
      pushes, i := pushes + [local[i]], i + 1;
    }
    while j < |peer|
      invariant Progress(local, peer, i, j, pulls, pushes) && i == |local|
      decreases |peer| - j
    {
      PullStep(local, peer, i, j, pulls, pushes);
      pulls, j := pulls + [peer[j]], j + 1;
    }
    assert local[..|local|] == local && peer[..|peer|] == peer;
  }

  // ---------------------------------------------------------------- repairing two stores

  /** The parameters of a walk: digest and stored form of rows, shape of the
      tree, what each side owns, and whether scans, calls and writes may fail. */
  datatype Walk = Walk(hash: seq<byte> -> seq<byte>, encode: Envelope -> seq<byte>, fanout: int,
                       leafItemThreshold: int, maxDepth: int, split: (Key, Key, int) -> SplitResult,
                       owns: Key -> bool, peerOwns: Key -> bool, peerOwnsRange: Bucket -> bool, faulty: bool)

  class Replica {
    var rows: Rows

    constructor (rows: Rows)
      ensures this.rows == rows
    {
      this.rows := rows;
    }
  }

  /** An operation that may fail if operations may fail at all. */
  method Fails(w: Walk) returns (fails: bool)
    ensures fails ==> w.faulty
  {
    var chance: bool := *;
    fails := w.faulty && chance;
  }

  ghost predicate OneRowPerKey(s: seq<Row>) {
    forall x, y :: x in s && y in s && x.key == y.key ==> x == y
  }

  ghost predicate Names(s: seq<Row>, k: Key) {
    exists r :: r in s && r.key == k
  }

  /** The row has been written, or its key is as it was. */
  ghost predicate RowWritten(accepts: Key -> bool, before: Rows, r: Row, after: Rows, err: bool) {
    || (accepts(r.key) && Look(after, r.key) == Holds(r.envelope))
    || ((err || !accepts(r.key)) && Look(after, r.key) == Look(before, r.key))
  }

  /** after is before with some of the acceptable rows of s written into it, and
      all of them if there was no error. */
  ghost predicate Wrote(accepts: Key -> bool, before: Rows, s: seq<Row>, after: Rows, err: bool) {
    && (forall r :: r in s ==> RowWritten(accepts, before, r, after, err))
    && (forall k: Key :: !Names(s, k) ==> Look(after, k) == Look(before, k))
  }

  /** The next row is passed over. */
  lemma WroteSkip(accepts: Key -> bool, before: Rows, s: seq<Row>, i: nat, now: Rows, err: bool)
    requires i < |s| && OneRowPerKey(s) && Wrote(accepts, before, s[..i], now, err)
    ensures Wrote(accepts, before, s[..i + 1], now, err || accepts(s[i].key))
  {
    TakeOne(s, i);
    if Names(s[..i], s[i].key) {
      var q :| q in s[..i] && q.key == s[i].key;
      assert q in s && s[i] in s;
    }
    forall k | !Names(s[..i + 1], k) ensures Look(now, k) == Look(before, k) {
      assert !Names(s[..i], k);
    }
  }

  /** The next row is written. */
  lemma WroteNext(accepts: Key -> bool, before: Rows, s: seq<Row>, i: nat, now: Rows, err: bool)
    requires i < |s| && OneRowPerKey(s) && Wrote(accepts, before, s[..i], now, err) && accepts(s[i].key)
    ensures Wrote(accepts, before, s[..i + 1], now[s[i].key := s[i].envelope], err)
  {
    TakeOne(s, i);
    var after := now[s[i].key := s[i].envelope];
    forall r | r in s[..i + 1] ensures RowWritten(accepts, before, r, after, err) {
      if r.key == s[i].key {
        assert r in s && s[i] in s;
      } else {
        assert r in s[..i] && Look(after, r.key) == Look(now, r.key);
      }
    }
    forall k | !Names(s[..i + 1], k) ensures Look(after, k) == Look(before, k) {
      assert s[i] in s[..i + 1] && !Names(s[..i], k);
    }
  }

  /** Store pulled rows locally: keys owned by others are skipped, and a failed
      write does not stop the rest. */
  method ApplyPulls(w: Walk, store: Replica, s: seq<Row>) returns (err: bool)
    requires OneRowPerKey(s)
    modifies store
    ensures Wrote(w.owns, old(store.rows), s, store.rows, err) && (err ==> w.faulty)
  {
    err := false;
    for i := 0 to |s|
      invariant Wrote(w.owns, old(store.rows), s[..i], store.rows, err) && (err ==> w.faulty)
    {
      if !w.owns(s[i].key) {
        WroteSkip(w.owns, old(store.rows), s, i, store.rows, err);
        continue;
      }
      var fails := Fails(w);
      if fails {
        WroteSkip(w.owns, old(store.rows), s, i, store.rows, err);
        err := true;
      } else {
        WroteNext(w.owns, old(store.rows), s, i, store.rows, err);
        store.rows := store.rows[s[i].key := s[i].envelope];
      }
    }
    assert s[..|s|] == s;
  }

  ghost function AnyKey(): Key -> bool {
    (k: Key) => true
  }

  /** Some rows of s written, none missing unless there was an error. */
  lemma WroteNothing(accepts: Key -> bool, before: Rows, s: seq<Row>)
    ensures Wrote(accepts, before, [], before, false) && Wrote(accepts, before, s, before, true)
  {
  }

  lemma WrotePart(accepts: Key -> bool, before: Rows, s: seq<Row>, i: nat, now: Rows, err: bool)
    requires i <= |s| && OneRowPerKey(s) && Wrote(accepts, before, s[..i], now, err)
    ensures Wrote(accepts, before, s, now, true)
  {
    assert forall r :: r in s[..i] ==> r in s;
    forall r | r in s ensures RowWritten(accepts, before, r, now, true) {
      if Names(s[..i], r.key) {
        var q :| q in s[..i] && q.key == r.key;
        assert q in s;
      }
    }
    forall k | !Names(s, k) ensures Look(now, k) == Look(before, k) {
      assert !Names(s[..i], k);
    }
  }

  /** Send rows to the peer, which refuses them all if it does not own each of
      them, and stops at the first failing write. */
  method PushRepairs(w: Walk, store: Replica, s: seq<Row>) returns (err: bool)
    requires OneRowPerKey(s)
    modifies store
    ensures Wrote(AnyKey(), old(store.rows), s, store.rows, err)
    ensures err ==> w.faulty || exists r :: r in s && !w.peerOwns(r.key)
  {
    WroteNothing(AnyKey(), store.rows, s);
    if s == [] {
      return false;
    }
    var fails := Fails(w);
    if fails {
      return true;
    }
    for i := 0 to |s| {
      if !w.peerOwns(s[i].key) {
        assert s[i] in s;
        return true;
      }
    }
    for i := 0 to |s|
      invariant Wrote(AnyKey(), old(store.rows), s[..i], store.rows, false)
    {
      fails := Fails(w);
      WroteNext(AnyKey(), old(store.rows), s, i, store.rows, false);
      if fails {
        WrotePart(AnyKey(), old(store.rows), s, i, store.rows, false);
        return true;
      }
      store.rows := store.rows[s[i].key := s[i].envelope];
    }
    assert s[..|s|] == s;
    err := Fails(w);
    WrotePart(AnyKey(), old(store.rows), s, |s|, store.rows, false);
  }

  lemma SortedOneRowPerKey(s: seq<Row>)
    requires KeySorted(s)
    ensures OneRowPerKey(s)
  {
    forall x, y | x in s && y in s && x.key == y.key ensures x == y {
      var i :| 0 <= i < |s| && s[i] == x;
      OnlyRow(s, i);
    }
  }

  lemma ListingLook(s: seq<Row>, rows: Rows, b: Bucket, k: Key)
    requires IsListing(s, Within(rows, b)) && InBucket(b, k)
    ensures Look(rows, k).Absent? ==> forall r :: r in s ==> r.key != k
    ensures Look(rows, k).Holds? ==> Row(k, rows[k]) in s && forall r :: r in s && r.key == k ==> r == Row(k, rows[k])
  {
    var w := Within(rows, b);
    assert k in w <==> k in rows;
    assert k in w ==> Row(k, w[k]) in s;
  }

  /** Key k is moved by a leaf, repaired if there was no error, and left alone outside the bucket. */
  ghost predicate LeafKey(owns: Key -> bool, l0: Rows, p0: Rows, l1: Rows, p1: Rows, b: Bucket, err: bool, k: Key) {
    && Moved(owns, l0, p0, l1, p1, k)
    && (!err && InBucket(b, k) ==> Repaired(owns, l0, p0, l1, p1, k))
    && (!InBucket(b, k) ==> Untouched(l0, p0, l1, p1, k))
  }

  ghost predicate LeafDone(owns: Key -> bool, l0: Rows, p0: Rows, l1: Rows, p1: Rows, b: Bucket, err: bool) {
    forall k: Key :: LeafKey(owns, l0, p0, l1, p1, b, err, k)
  }

  lemma LeafPulls(owns: Key -> bool, l0: Rows, p0: Rows, b: Bucket, ls: seq<Row>, ps: seq<Row>, pulls: seq<Row>,
                  l1: Rows, err: bool, k: Key)
    requires IsListing(ls, Within(l0, b)) && IsListing(ps, Within(p0, b))
    requires (forall r :: r in pulls <==> ToPull(ls, ps, r)) && Wrote(owns, l0, pulls, l1, err)
    ensures Look(l1, k) == Look(l0, k) || (owns(k) && Look(l1, k) == FixLocal(Look(l0, k), Look(p0, k)))
    ensures !err && InBucket(b, k) && owns(k) ==> Look(l1, k) == FixLocal(Look(l0, k), Look(p0, k))
    ensures !InBucket(b, k) ==> Look(l1, k) == Look(l0, k)
  {
    if InBucket(b, k) {
      ListingLook(ls, l0, b, k);
      ListingLook(ps, p0, b, k);
      if k in p0 {
        var r := Row(k, p0[k]);
        assert ToPull(ls, ps, r) <==> FixLocal(Look(l0, k), Look(p0, k)) == Look(p0, k) && Look(l0, k) != Look(p0, k);
      }
    } else {
      assert forall r :: r in pulls ==> r in ps;
    }
  }

  lemma LeafPushes(l0: Rows, p0: Rows, b: Bucket, ls: seq<Row>, ps: seq<Row>, pushes: seq<Row>, p1: Rows, err: bool,
                   k: Key)
    requires IsListing(ls, Within(l0, b)) && IsListing(ps, Within(p0, b))
    requires (forall r :: r in pushes <==> ToPush(ls, ps, r)) && Wrote(AnyKey(), p0, pushes, p1, err)
    ensures Look(p1, k) == Look(p0, k) || Look(p1, k) == FixPeer(Look(l0, k), Look(p0, k))
    ensures !err && InBucket(b, k) ==> Look(p1, k) == FixPeer(Look(l0, k), Look(p0, k))
    ensures !InBucket(b, k) ==> Look(p1, k) == Look(p0, k)
  {
    if InBucket(b, k) {
      ListingLook(ls, l0, b, k);
      ListingLook(ps, p0, b, k);
      if k in l0 {
        var r := Row(k, l0[k]);
        assert ToPush(ls, ps, r) <==> FixPeer(Look(l0, k), Look(p0, k)) == Look(l0, k) && Look(l0, k) != Look(p0, k);
      }
    } else {
      assert forall r :: r in pushes ==> r in ls;
    }
  }

  /** Writing the pulled and the pushed rows is a leaf's work at every key. */
  lemma LeafIsDone(owns: Key -> bool, l0: Rows, p0: Rows, b: Bucket, ls: seq<Row>, ps: seq<Row>, pulls: seq<Row>,
                   pushes: seq<Row>,
                 l1: Rows, p1: Rows, pullErr: bool, pushErr: bool)
    requires IsListing(ls, Within(l0, b)) && IsListing(ps, Within(p0, b))
    requires (forall r :: r in pulls <==> ToPull(ls, ps, r)) && Wrote(owns, l0, pulls, l1, pullErr)
    requires (forall r :: r in pushes <==> ToPush(ls, ps, r)) && Wrote(AnyKey(), p0, pushes, p1, pushErr)
    ensures LeafDone(owns, l0, p0, l1, p1, b, pullErr || pushErr)
  {
    var err := pullErr || pushErr;
    forall k: Key ensures LeafKey(owns, l0, p0, l1, p1, b, err, k) {
      LeafPulls(owns, l0, p0, b, ls, ps, pulls, l1, pullErr, k);
      LeafPushes(l0, p0, b, ls, ps, pushes, p1, pushErr, k);
    }
  }

  lemma NothingDone(owns: Key -> bool, l: Rows, p: Rows, b: Bucket)
    ensures LeafDone(owns, l, p, l, p, b, true)
  {
  }

  /** The peer owns the bucket and every key of it. */
  ghost predicate PeerOwnsAll(w: Walk, b: Bucket) {
    w.peerOwnsRange(b) && forall k: Key :: InBucket(b, k) ==> w.peerOwns(k)
  }

  lemma PushedAreOwned(w: Walk, rows: Rows, b: Bucket, s: seq<Row>, peer: seq<Row>, pushes: seq<Row>)
    requires IsListing(s, Within(rows, b)) && PeerOwnsAll(w, b) && forall r :: r in pushes <==> ToPush(s, peer, r)
    ensures forall r :: r in pushes ==> w.peerOwns(r.key)
  {
  }

  /** Diff the contents of a range row by row and repair both sides. */
  method DiffLeaf(w: Walk, local: Replica, peer: Replica, b: Bucket) returns (err: bool)
    requires local != peer
    modifies local, peer
    ensures LeafDone(w.owns, old(local.rows), old(peer.rows), local.rows, peer.rows, b, err)
    ensures err ==> w.faulty || !PeerOwnsAll(w, b)
  {
    ghost var l0, p0 := local.rows, peer.rows;
    NothingDone(w.owns, l0, p0, b);
    var localFails := Fails(w);
    var peerFails := Fails(w);
    if localFails || peerFails || !w.peerOwnsRange(b) {
      return true;
    }
    var localRows := ScanSorted(local.rows, b);
    var peerRows := ScanSorted(peer.rows, b);
    var pulls, pushes := MergeDiff(localRows, peerRows);
    SortedOneRowPerKey(localRows);
    SortedOneRowPerKey(peerRows);
    var pullErr := ApplyPulls(w, local, pulls);
    var pushErr := PushRepairs(w, peer, pushes);
    LeafIsDone(w.owns, l0, p0, b, localRows, peerRows, pulls, pushes, local.rows, peer.rows, pullErr, pushErr);
    if PeerOwnsAll(w, b) {
      PushedAreOwned(w, l0, b, localRows, peerRows, pushes);
    }
    err := pullErr || pushErr;
  }

  // ---------------------------------------------------------------- what a repair achieves

  /** What a repaired key looks like, told by the clocks: a missing or older copy
      is replaced by the other side's, concurrent and equally old copies stay,
      and a local side that does not own the key changes nothing. */
  lemma RepairMeans(owns: Key -> bool, l0: Rows, p0: Rows, l1: Rows, p1: Rows, k: Key)
    requires Repaired(owns, l0, p0, l1, p1, k)
    ensures !owns(k) ==> Look(l1, k) == Look(l0, k)
    ensures k !in l0 && owns(k) ==> Look(l1, k) == Look(p0, k)
    ensures k !in p0 ==> Look(p1, k) == Look(l0, k)
    ensures k in l0 && k in p0 ==>
              var older := Leq(l0[k].clock, p0[k].clock) && !Leq(p0[k].clock, l0[k].clock);
              var newer := Leq(p0[k].clock, l0[k].clock) && !Leq(l0[k].clock, p0[k].clock);
              && Look(l1, k) == (if older && owns(k) then Holds(p0[k]) else Holds(l0[k]))
              && Look(p1, k) == (if newer then Holds(l0[k]) else Holds(p0[k]))
  {
  }

  /** After the repair of an owned key both sides hold the same, unless they held
      copies that are concurrent or equally old; repairing again changes nothing. */
  lemma RepairedAgree(owns: Key -> bool, l0: Rows, p0: Rows, l1: Rows, p1: Rows, k: Key)
    requires Repaired(owns, l0, p0, l1, p1, k) && owns(k)
    ensures Look(l1, k) == Look(p1, k) <==>
              || k !in l0 || k !in p0 || l0[k] == p0[k]
              || (Leq(l0[k].clock, p0[k].clock) != Leq(p0[k].clock, l0[k].clock))
    ensures Repaired(owns, l1, p1, l1, p1, k)
  {
    FixesCommute(Look(l0, k), Look(p0, k));
  }
}
