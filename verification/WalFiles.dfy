/** The log as the program runs it: one object whose counters, buffer and files
    change in place (src/wal/storage/append_file.go), the loop that waits for
    durability (src/wal/wal.go), and the writer that acknowledges a batch of
    requests with one wait (src/engine/write_queue.go). */
module WalFiles {
  import opened Keys
  import opened Codec
  import opened WalRecord
  import WalStore
  import GroupCommit

  /** One call of the reader moves one record from what is left to what was seen. */
  lemma ReadStep(crc: Checksum, seen: seq<Record>, rest: seq<byte>)
    ensures var r := ReadNext(crc, rest);
            seen + ReadAll(crc, rest) == if r.EndOfLog? then seen else (seen + [r.record]) + ReadAll(crc, r.rest)
  {
    var r := ReadNext(crc, rest);
    if r.Next? {
      ConcatAssociative(seen, [r.record], ReadAll(crc, r.rest));
    }
  }

  /** Read one segment to its end, appending to what was read before. */
  method DrainSegment(crc: Checksum, segment: seq<byte>, before: seq<Record>) returns (entries: seq<Record>)
    ensures entries == before + ReadAll(crc, segment)
  {
    entries := before;
    var rest := segment;
    ReadStep(crc, entries, rest);
    var r := ReadNext(crc, rest);
    ghost var all := before + ReadAll(crc, segment);
    while r.Next?
      invariant r == ReadNext(crc, rest)
      invariant all == if r.EndOfLog? then entries else (entries + [r.record]) + ReadAll(crc, r.rest)
      decreases |rest|
    {
      entries := entries + [r.record];
      rest := r.rest;
      ReadStep(crc, entries, rest);
      r := ReadNext(crc, rest);
    }
  }

  /** The number of the last readable record. */
  method MaxLSNInSegment(crc: Checksum, segment: seq<byte>) returns (max: nat)
    ensures max == WalStore.MaxLSN(crc, segment)
  {
    max := 0;
    var rest := segment;
    ghost var seen: seq<Record> := [];
    ghost var all := [] + ReadAll(crc, segment);
    ReadStep(crc, seen, rest);
    var r := ReadNext(crc, rest);
    while r.Next?
      invariant r == ReadNext(crc, rest)
      invariant all == if r.EndOfLog? then seen else (seen + [r.record]) + ReadAll(crc, r.rest)
      invariant max == if seen == [] then 0 else seen[|seen| - 1].lsn
      decreases |rest|
    {
      seen := seen + [r.record];
      max, rest := r.record.lsn, r.rest;
      ReadStep(crc, seen, rest);
      r := ReadNext(crc, rest);
    }
    assert all == ReadAll(crc, segment);
  }

  lemma ReplayStep(crc: Checksum, entries: seq<Record>, segments: seq<seq<byte>>, i: nat)
    requires i < |segments|
    ensures entries + WalStore.Replay(crc, segments[i..])
         == (entries + ReadAll(crc, segments[i])) + WalStore.Replay(crc, segments[i + 1..])
  {
    assert segments[i..][1..] == segments[i + 1..];
    ConcatAssociative(entries, ReadAll(crc, segments[i]), WalStore.Replay(crc, segments[i + 1..]));
  }

  /** Replay every segment in order. */
  method ReplaySegments(crc: Checksum, segments: seq<seq<byte>>) returns (entries: seq<Record>)
    ensures entries == WalStore.Replay(crc, segments)
  {
    entries := [];
    assert segments[0..] == segments;
    for i := 0 to |segments|
      invariant WalStore.Replay(crc, segments) == entries + WalStore.Replay(crc, segments[i..])
    {
      ReplayStep(crc, entries, segments, i);
      entries := DrainSegment(crc, segments[i], entries);
    }
  }

  lemma PurgeableStep(crc: Checksum, segments: seq<seq<byte>>, checkpoint: nat, i: nat)
    requires i < |segments|
    ensures WalStore.Purgeable(crc, segments[i..], checkpoint)
         == if WalStore.MaxLSN(crc, segments[i]) > checkpoint then 0
            else 1 + WalStore.Purgeable(crc, segments[i + 1..], checkpoint)
  {
    assert segments[i..][1..] == segments[i + 1..];
  }

  lemma PurgeRemoves(crc: Checksum, s: WalStore.Store, checkpoint: nat, removals: nat, i: nat)
    requires var j := WalStore.Purgeable(crc, WalStore.Older(s), checkpoint); i == if removals < j then removals else j
    ensures i <= |s.closed| && WalStore.Purge(crc, s, checkpoint, removals) == s.(closed := s.closed[i..])
  {
  }

  /** Remove leading segments up to the first one with newer records, or until a removal fails. */
  method RemoveOlder(crc: Checksum, older: seq<seq<byte>>, checkpoint: nat, removals: nat) returns (n: nat)
    ensures var j := WalStore.Purgeable(crc, older, checkpoint); n == if removals < j then removals else j
  {
    n := 0;
    assert older[0..] == older;
    while n < |older| && n < removals
      invariant n <= |older| && n <= removals
      invariant WalStore.Purgeable(crc, older, checkpoint) == n + WalStore.Purgeable(crc, older[n..], checkpoint)
    {
      PurgeableStep(crc, older, checkpoint, n);
      var max := MaxLSNInSegment(crc, older[n]);
      if max > checkpoint {
        return;
      }
      n := n + 1;
    }
  }

  class AppendFileStorage {
    const crc: Checksum
    const limits: WalStore.Limits
    var closed: seq<seq<byte>>
    var active: seq<byte>
    var open: bool
    ghost var synced: nat
    var buffer: seq<byte>
    var nextLSN: nat
    var appendedLSN: nat
    var durableLSN: nat

    ghost function Value(): WalStore.Store
      reads this
    {
      WalStore.Store(closed, active, open, synced, buffer, nextLSN, appendedLSN, durableLSN)
    }

    /** A fresh directory. */
    constructor (crc: Checksum, limits: WalStore.Limits)
      ensures Value() == WalStore.Fresh() && this.crc == crc && this.limits == limits
    {
      this.crc, this.limits := crc, limits;
      closed, active, open, synced, buffer := [], [], true, 0, [];
      nextLSN, appendedLSN, durableLSN := 1, 0, 0;
    }

    method FlushLocked(w: WalStore.Write) returns (ok: bool)
      modifies this
      ensures WalStore.Result(Value(), ok) == WalStore.Flush(old(Value()), w)
    {
      if |buffer| == 0 {
        return true;
      }
      if !open {
        return false;
      }
      match w
      case Failed(k) =>
        active := active + buffer[..if k < |buffer| then k else |buffer|];
        return false;
      case Wrote =>
        active := active + buffer;
        buffer := [];
        return true;
    }

    method SyncLocked(d: WalStore.Disk) returns (ok: bool)
      modifies this
      ensures WalStore.Result(Value(), ok) == WalStore.Sync(old(Value()), d)
    {
      ok := FlushLocked(d.late);
      if !ok || !open {
        return;
      }
      if !d.sync {
        return false;
      }
      synced := |active|;
      durableLSN := appendedLSN;
    }

    method RotateIfNeededLocked(d: WalStore.Disk) returns (ok: bool)
      modifies this
      ensures WalStore.Result(Value(), ok) == WalStore.Rotate(limits, old(Value()), d)
    {
      if !open {
        return true;
      }
      ok := FlushLocked(d.late);
      if !ok || !d.stat {
        return false;
      }
      if |active| < limits.segmentSize {
        return true;
      }
      if !d.sync {
        return false;
      }
      synced := |active|;
      durableLSN := appendedLSN;
      if d.rotation.CloseFailed? {
        return false;
      }
      closed, active, synced, open, buffer := closed + [active], [], 0, d.rotation.Opened?, [];
      return open;
    }

    /** On success the number is the record's; on failure the record may still
        be buffered or written, but no number is handed out. */
    method Append(op: Op, key: Key, value: Key, d: WalStore.Disk) returns (lsn: nat, ok: bool)
      requires nextLSN <= MAX_UINT64
      modifies this
      ensures WalStore.Result(Value(), ok)
           == WalStore.Append(crc, limits, old(Value()), Record(old(nextLSN), op, key, value), d)
      ensures lsn == if ok then old(nextLSN) else 0
    {
      var r := Record(nextLSN, op, key, value);
      nextLSN := nextLSN + 1;
      buffer := buffer + Encode(crc, r);
      appendedLSN := r.lsn;
      if |buffer| >= limits.writeBufferSize {
        ok := FlushLocked(d.early);
        if !ok {
          return 0, false;
        }
      }
      ok := RotateIfNeededLocked(d);
      lsn := if ok then r.lsn else 0;
    }

    /** Segment by segment, oldest first, up to the first that is still needed. */
    method PurgeUpTo(checkpoint: nat, removals: nat)
      modifies this
      ensures Value() == WalStore.Purge(crc, old(Value()), checkpoint, removals)
    {
      var older := if open || |closed| == 0 then closed else closed[..|closed| - 1];
      var n := RemoveOlder(crc, older, checkpoint, removals);
      PurgeRemoves(crc, Value(), checkpoint, removals, n);
      closed := closed[n..];
    }

    /** Wait until everything up to lsn is on disk, with nobody else waiting:
        at most one fsync, and nil only for a durable number. */
    method WaitDurable(flushed: nat, lsn: nat, d: WalStore.Disk) returns (flushed': nat, ok: bool)
      requires GroupCommit.Ordered(Value()) && flushed <= durableLSN && lsn <= appendedLSN
      modifies this
      ensures GroupCommit.Ordered(Value()) && flushed <= flushed' <= durableLSN && old(durableLSN) <= durableLSN
      ensures Value() == if lsn <= flushed then old(Value()) else WalStore.Sync(old(Value()), d).store
      ensures ok <==> lsn <= flushed'
      ensures WalStore.Sync(old(Value()), d).ok ==> ok
    {
      flushed', ok := flushed, true;
      while lsn > flushed'
        invariant ok && (flushed' == flushed ==> Value() == old(Value())) && (flushed' != flushed ==> lsn <= flushed')
        invariant GroupCommit.Ordered(Value()) && flushed <= flushed' <= durableLSN && old(durableLSN) <= durableLSN
        invariant flushed' != flushed ==> lsn > flushed && Value() == WalStore.Sync(old(Value()), d).store
        decreases lsn > flushed'
      {
        GroupCommit.SyncOrdered(Value(), d);
        ok := SyncLocked(d);
        flushed' := durableLSN;
        if !ok && lsn > flushed' {
          return;
        }
        ok := true;
      }
    }
  }

  // ---------------------------------------------------------------- the writer's batch

  /** One queued write; `admitted` is the rate limiter's answer and `disk` what
      the file system does during its append. */
  datatype Request = Request(op: Op, key: Key, value: Key, sync: bool, admitted: bool, disk: WalStore.Disk)

  function ApplyOne(crc: Checksum, l: WalStore.Limits, s: WalStore.Store, r: Request): WalStore.Result
    requires s.next <= MAX_UINT64
  {
    if !r.admitted then WalStore.Result(s, false)
    else WalStore.Append(crc, l, s, Record(s.next, r.op, r.key, r.value), r.disk)
  }

  lemma ApplyOneOrdered(crc: Checksum, l: WalStore.Limits, s: WalStore.Store, r: Request)
    requires GroupCommit.Ordered(s) && s.next <= MAX_UINT64
    ensures var a := ApplyOne(crc, l, s, r).store;
            && GroupCommit.Ordered(a) && s.durable <= a.durable && s.appended <= a.appended
            && s.next <= a.next <= s.next + 1
            && (ApplyOne(crc, l, s, r).ok ==> s.next == a.appended)
  {
    if r.admitted {
      GroupCommit.AppendOrdered(crc, l, s, Record(s.next, r.op, r.key, r.value), r.disk);
    }
  }

  /** Append one request unless the rate limiter refuses it. */
  method ApplyRequest(wal: AppendFileStorage, r: Request) returns (lsn: nat, ok: bool)
    requires GroupCommit.Ordered(wal.Value()) && wal.nextLSN <= MAX_UINT64
    modifies wal
    ensures WalStore.Result(wal.Value(), ok) == ApplyOne(wal.crc, wal.limits, old(wal.Value()), r)
    ensures GroupCommit.Ordered(wal.Value()) && old(wal.appendedLSN) <= wal.appendedLSN
    ensures old(wal.durableLSN) <= wal.durableLSN && wal.nextLSN <= old(wal.nextLSN) + 1
    ensures lsn == if ok then old(wal.nextLSN) else 0
    ensures ok ==> lsn == wal.appendedLSN
    ensures !r.admitted ==> !ok && wal.Value() == old(wal.Value())
  {
    ApplyOneOrdered(wal.crc, wal.limits, wal.Value(), r);
    lsn, ok := 0, false;
    if r.admitted {
      lsn, ok := wal.Append(r.op, r.key, r.value, r.disk);
    }
  }

  /** Request r met the log s and was given this number and outcome. */
  ghost predicate Applied(crc: Checksum, l: WalStore.Limits, s: WalStore.Store, r: Request, lsn: nat, ok: bool) {
    s.next <= MAX_UINT64 && ok == ApplyOne(crc, l, s, r).ok && lsn == if ok then s.next else 0
  }

  /** The logs between the requests of a batch, and what each request was given. */
  ghost predicate Trail(crc: Checksum, l: WalStore.Limits, trail: seq<WalStore.Store>, batch: seq<Request>,
                        lsns: seq<nat>, oks: seq<bool>)
  {
    && |trail| == |batch| + 1 && |lsns| == |oks| == |batch|
    && (forall i :: 0 <= i < |batch| ==> Applied(crc, l, trail[i], batch[i], lsns[i], oks[i]))
    && (forall i, j :: 0 <= i < |batch| && j == i + 1 ==> trail[j] == ApplyOne(crc, l, trail[i], batch[i]).store)
  }

  lemma TrailStep(crc: Checksum, l: WalStore.Limits, trail: seq<WalStore.Store>, batch: seq<Request>,
                  lsns: seq<nat>, oks: seq<bool>, r: Request, lsn: nat, ok: bool, now: WalStore.Store)
    requires Trail(crc, l, trail, batch, lsns, oks) && Applied(crc, l, trail[|batch|], r, lsn, ok)
    requires now == ApplyOne(crc, l, trail[|batch|], r).store
    ensures Trail(crc, l, trail + [now], batch + [r], lsns + [lsn], oks + [ok])
  {
    var n := |batch|;
    var trail', batch' := trail + [now], batch + [r];
    forall i, j | 0 <= i < |batch'| && j == i + 1
      ensures trail'[i].next <= MAX_UINT64 && trail'[j] == ApplyOne(crc, l, trail'[i], batch'[i]).store
    {
      if i < n {
        assert Applied(crc, l, trail[i], batch[i], lsns[i], oks[i]);
        assert trail'[j] == trail[j];
      }
    }
  }

  /** What is known of an applied request once the log reads `now` and `max` is
      the largest synchronous number: it is in the log, and covered by `max`. */
  ghost predicate Covered(r: Request, lsn: nat, ok: bool, now: WalStore.Store, max: nat) {
    ok ==> 0 < lsn <= now.appended && (r.sync ==> lsn <= max)
  }

  function Raise(max: nat, r: Request, lsn: nat, ok: bool): nat {
    if ok && r.sync && lsn > max then lsn else max
  }

  ghost predicate AllCovered(batch: seq<Request>, lsns: seq<nat>, oks: seq<bool>, now: WalStore.Store, max: nat) {
    |lsns| == |oks| == |batch| && forall i :: 0 <= i < |batch| ==> Covered(batch[i], lsns[i], oks[i], now, max)
  }

  lemma CoveredStep(batch: seq<Request>, lsns: seq<nat>, oks: seq<bool>, now: WalStore.Store, max: nat,
                    r: Request, lsn: nat, ok: bool, later: WalStore.Store)
    requires AllCovered(batch, lsns, oks, now, max) && now.appended <= later.appended
    requires ok ==> 0 < lsn <= later.appended
    ensures AllCovered(batch + [r], lsns + [lsn], oks + [ok], later, Raise(max, r, lsn, ok))
  {
    var max' := Raise(max, r, lsn, ok);
    forall i | 0 <= i < |batch| ensures Covered(batch[i], lsns[i], oks[i], later, max') {
      assert Covered(batch[i], lsns[i], oks[i], now, max);
    }
  }

  /** Some synchronous request was given this number. */
  ghost predicate Asked(batch: seq<Request>, lsns: seq<nat>, oks: seq<bool>, max: nat)
    requires |lsns| == |oks| == |batch|
  {
    exists i :: 0 <= i < |batch| && oks[i] && batch[i].sync && lsns[i] == max
  }

  lemma AskedStep(batch: seq<Request>, lsns: seq<nat>, oks: seq<bool>, max: nat, r: Request, lsn: nat, ok: bool)
    requires |lsns| == |oks| == |batch| && (max == 0 || Asked(batch, lsns, oks, max))
    ensures var max' := Raise(max, r, lsn, ok); max' == 0 || Asked(batch + [r], lsns + [lsn], oks + [ok], max')
  {
    var batch', lsns', oks' := batch + [r], lsns + [lsn], oks + [ok];
    if Raise(max, r, lsn, ok) != max {
      assert oks'[|batch|] && batch'[|batch|].sync && lsns'[|batch|] == lsn;
    } else if max > 0 {
      var i :| 0 <= i < |batch| && oks[i] && batch[i].sync && lsns[i] == max;
      assert oks'[i] && batch'[i].sync && lsns'[i] == max;
    }
  }

  /** Append every request; nothing is synced yet. */
  method ApplyBatch(wal: AppendFileStorage, batch: seq<Request>)
    returns (lsns: seq<nat>, oks: seq<bool>, max: nat, ghost trail: seq<WalStore.Store>)
    requires GroupCommit.Ordered(wal.Value()) && wal.nextLSN + |batch| <= MAX_UINT64
    modifies wal
    ensures Trail(wal.crc, wal.limits, trail, batch, lsns, oks)
    ensures trail[0] == old(wal.Value()) && trail[|batch|] == wal.Value()
    ensures AllCovered(batch, lsns, oks, wal.Value(), max)
    ensures max == 0 || Asked(batch, lsns, oks, max)
    ensures GroupCommit.Ordered(wal.Value()) && max <= wal.appendedLSN && old(wal.durableLSN) <= wal.durableLSN
  {
    lsns, oks, max, trail := [], [], 0, [wal.Value()];
    for i := 0 to |batch|
      invariant GroupCommit.Ordered(wal.Value()) && max <= wal.appendedLSN
      invariant wal.nextLSN <= old(wal.nextLSN) + i && old(wal.durableLSN) <= wal.durableLSN
      invariant Trail(wal.crc, wal.limits, trail, batch[..i], lsns, oks)
      invariant trail[0] == old(wal.Value()) && trail[i] == wal.Value()
      invariant AllCovered(batch[..i], lsns, oks, wal.Value(), max)
      invariant max == 0 || Asked(batch[..i], lsns, oks, max)
    {
      ghost var now := wal.Value();
      var lsn, ok := ApplyRequest(wal, batch[i]);
      TrailStep(wal.crc, wal.limits, trail, batch[..i], lsns, oks, batch[i], lsn, ok, wal.Value());
      CoveredStep(batch[..i], lsns, oks, now, max, batch[i], lsn, ok, wal.Value());
      AskedStep(batch[..i], lsns, oks, max, batch[i], lsn, ok);
      assert batch[..i] + [batch[i]] == batch[..i + 1];
      max := Raise(max, batch[i], lsn, ok);
      lsns, oks, trail := lsns + [lsn], oks + [ok], trail + [wal.Value()];
    }
    assert batch[..|batch|] == batch;
  }

  /** Append the whole batch, acknowledge the asynchronous requests, wait once
      for the largest synchronous number, acknowledge the rest. A synchronous
      nil is given only for a record that is durable, an asynchronous one
      exactly for a record that went into the log. */
  method RunBatch(wal: AppendFileStorage, flushed: nat, batch: seq<Request>, wait: WalStore.Disk)
    returns (lsns: seq<nat>, acks: seq<bool>, flushed': nat, ghost oks: seq<bool>, ghost trail: seq<WalStore.Store>)
    requires GroupCommit.Ordered(wal.Value()) && flushed <= wal.durableLSN && wal.nextLSN + |batch| <= MAX_UINT64
    modifies wal
    ensures Trail(wal.crc, wal.limits, trail, batch, lsns, oks) && trail[0] == old(wal.Value())
    ensures |acks| == |batch| && flushed' <= wal.durableLSN
    ensures forall i :: 0 <= i < |batch| && acks[i] ==> oks[i] && 0 < lsns[i] <= wal.appendedLSN
    ensures forall i :: 0 <= i < |batch| && acks[i] && batch[i].sync ==> lsns[i] <= wal.durableLSN
    ensures forall i :: 0 <= i < |batch| && !batch[i].sync ==> acks[i] == oks[i]
    ensures WalStore.Sync(trail[|batch|], wait).ok ==> acks == oks
    ensures forall i :: 0 <= i < |batch| && !batch[i].admitted ==> !acks[i]
    ensures (forall i :: 0 <= i < |batch| && batch[i].sync ==> !oks[i]) ==> wal.Value() == trail[|batch|]
  {
    var applied, max;
    lsns, applied, max, trail := ApplyBatch(wal, batch);
    ghost var now := wal.Value();
    oks := applied;
    forall i | 0 <= i < |batch| && !batch[i].admitted ensures !oks[i] {
      assert Applied(wal.crc, wal.limits, trail[i], batch[i], lsns[i], oks[i]);
    }
    var synced := true;
    flushed' := flushed;
    if max > 0 {
      flushed', synced := wal.WaitDurable(flushed, max, wait);
    }
    acks := seq(|batch|, i requires 0 <= i < |applied| => applied[i] && (batch[i].sync ==> synced));
    forall i | 0 <= i < |batch| && acks[i]
      ensures 0 < lsns[i] <= wal.appendedLSN && (batch[i].sync ==> lsns[i] <= wal.durableLSN)
    {
      assert Covered(batch[i], lsns[i], oks[i], now, max);
    }
  }
}
