/** The segmented log on disk (src/wal/storage/append_file.go): record numbers,
    the write buffer, the active segment, rotation, fsync and purging, with
    every call into the file system free to fail. */
module WalStore {
  import opened Keys
  import opened Codec
  import opened WalRecord

  /** Outcome of one write: a failing one may leave some first bytes behind. */
  datatype Write = Wrote | Failed(left: nat)

  datatype Rotation = Opened | CloseFailed | OpenFailed

  /** What the file system answers during one call. */
  datatype Disk = Disk(early: Write, late: Write, stat: bool, sync: bool, rotation: Rotation)

  /** `closed` are the older segments in id order, `active` the bytes of the
      segment being written, of which the first `synced` survive a crash;
      without an open file there is no active segment. */
  datatype Store = Store(closed: seq<seq<byte>>, active: seq<byte>, open: bool, synced: nat, buffer: seq<byte>,
                         next: nat, appended: nat, durable: nat)

  datatype Limits = Limits(segmentSize: nat, writeBufferSize: nat)

  datatype Result = Result(store: Store, ok: bool)

  function Fresh(): Store { Store([], [], true, 0, [], 1, 0, 0) }

  function Flush(s: Store, w: Write): Result {
    if s.buffer == [] then Result(s, true)
    else if !s.open then Result(s, false)
    else match w
      case Wrote => Result(s.(active := s.active + s.buffer, buffer := []), true)
      case Failed(k) => Result(s.(active := s.active + s.buffer[..if k < |s.buffer| then k else |s.buffer|]), false)
  }

  function MarkSynced(s: Store): Store { s.(synced := |s.active|, durable := s.appended) }

  function Sync(s: Store, d: Disk): Result {
    var f := Flush(s, d.late);
    if !f.ok || !f.store.open then f
    else if !d.sync then Result(f.store, false)
    else Result(MarkSynced(f.store), true)
  }

  function CloseSegment(s: Store, open: bool): Store {
    s.(closed := s.closed + [s.active], active := [], open := open, synced := 0, buffer := [])
  }

  function Rotate(l: Limits, s: Store, d: Disk): Result {
    if !s.open then Result(s, true)
    else
      var f := Flush(s, d.late);
      if !f.ok || !d.stat then Result(f.store, false)
      else if |f.store.active| < l.segmentSize then f
      else if !d.sync then Result(f.store, false)
      else
        var m := MarkSynced(f.store);
        match d.rotation
        case CloseFailed => Result(m, false)
        case OpenFailed => Result(CloseSegment(m, false), false)
        case Opened => Result(CloseSegment(m, true), true)
  }

  /** The record is numbered and buffered first; a later failure reports an
      error but leaves it in the log. */
  function Buffered(crc: Checksum, s: Store, r: Record): Store {
    s.(next := s.next + 1, appended := s.next, buffer := s.buffer + Encode(crc, r))
  }

  function Append(crc: Checksum, l: Limits, s: Store, r: Record, d: Disk): Result {
    var b := Buffered(crc, s, r);
    var f := if |b.buffer| >= l.writeBufferSize then Flush(b, d.early) else Result(b, true);
    if !f.ok then f else Rotate(l, f.store, d)
  }

  // ---------------------------------------------------------------- purging

  function MaxLSN(crc: Checksum, segment: seq<byte>): nat {
    var rs := ReadAll(crc, segment);
    if rs == [] then 0 else rs[|rs| - 1].lsn
  }

  /** How many leading segments hold nothing newer than the checkpoint. */
  function Purgeable(crc: Checksum, segments: seq<seq<byte>>, checkpoint: nat): (j: nat)
    ensures j <= |segments|
  {
    if segments == [] || MaxLSN(crc, segments[0]) > checkpoint then 0 else 1 + Purgeable(crc, segments[1..], checkpoint)
  }

  /** The segment last written to is never purged, open or not. */
  function Older(s: Store): seq<seq<byte>> {
    if s.open || s.closed == [] then s.closed else s.closed[..|s.closed| - 1]
  }

  /** Removal may fail after any number of segments. */
  function Purge(crc: Checksum, s: Store, checkpoint: nat, removals: nat): Store {
    var j := Purgeable(crc, Older(s), checkpoint);
    s.(closed := s.closed[if removals < j then removals else j..])
  }

  // ---------------------------------------------------------------- what the bytes stand for

  /** The records behind the bytes: everything ever appended, and where in that
      log each segment begins. */
  datatype Trace = Trace(log: seq<Record>, starts: seq<nat>)

  /** What a checkpoint has released, and where the active segment begins. */
  function Purged(t: Trace): nat
    requires t.starts != []
  {
    t.starts[0]
  }

  function Base(t: Trace): nat
    requires t.starts != []
  {
    t.starts[|t.starts| - 1]
  }

  ghost predicate Numbered(log: seq<Record>) {
    forall i :: 0 <= i < |log| ==> log[i].lsn == i + 1 && Encodable(log[i])
  }

  ghost predicate Ascending(starts: seq<nat>) {
    forall i, j :: 0 <= i < j < |starts| ==> starts[i] <= starts[j]
  }

  ghost predicate Stored(t: Trace) {
    t.starts != [] && Ascending(t.starts) && Base(t) <= |t.log| && Numbered(t.log)
  }

  /** This file holds exactly the records of the log from a up to b. */
  ghost predicate HoldsRecords(crc: Checksum, file: seq<byte>, log: seq<Record>, a: nat, b: nat) {
    a <= b <= |log| && file == EncodeAll(crc, log[a..b])
  }

  ghost predicate SegmentsHold(crc: Checksum, files: seq<seq<byte>>, t: Trace) {
    && |files| + 1 == |t.starts|
    && forall i, j :: 0 <= i < |files| && j == i + 1 ==> HoldsRecords(crc, files[i], t.log, t.starts[i], t.starts[j])
  }

  ghost predicate Counted(s: Store, t: Trace)
    requires t.starts != []
  {
    s.next == |t.log| + 1 && s.appended == |t.log| && Base(t) <= s.durable <= |t.log|
  }

  /** The bytes of the active segment: written and buffered ones hold the rest of
      the log, and the synced ones hold exactly what is durable. */
  ghost predicate ActiveHolds(crc: Checksum, s: Store, log: seq<Record>, base: nat) {
    && base <= s.durable <= |log| && HoldsRecords(crc, s.active + s.buffer, log, base, |log|)
    && |EncodeAll(crc, log[base..s.durable])| == s.synced <= |s.active|
    && (!s.open ==> s.active == [])
  }

  ghost predicate Rep(crc: Checksum, s: Store, t: Trace) {
    Stored(t) && Counted(s, t) && SegmentsHold(crc, s.closed, t) && ActiveHolds(crc, s, t.log, Base(t))
  }

  ghost predicate Clean(w: Write) { w.Wrote? || w.left == 0 }

  ghost predicate CleanDisk(d: Disk) { Clean(d.early) && Clean(d.late) }

  lemma {:induction false} EncodeAllConcat(crc: Checksum, a: seq<Record>, b: seq<Record>)
    ensures EncodeAll(crc, a + b) == EncodeAll(crc, a) + EncodeAll(crc, b)
  {
    if a == [] {
      assert a + b == b;
    } else {
      assert (a + b)[1..] == a[1..] + b;
      EncodeAllConcat(crc, a[1..], b);
    }
  }

  lemma EncodeOne(crc: Checksum, r: Record)
    ensures EncodeAll(crc, [r]) == Encode(crc, r)
  {
    assert [r][1..] == [];
  }

  lemma EncodeNone(crc: Checksum, log: seq<Record>, a: nat)
    requires a <= |log|
    ensures EncodeAll(crc, log[a..a]) == []
  {
  }

  function Beginning(): Trace { Trace([], [0]) }

  lemma FreshRep(crc: Checksum)
    ensures Rep(crc, Fresh(), Beginning())
  {
    EncodeNone(crc, [], 0);
  }

  // ---------------------------------------------------------------- flushing and syncing

  lemma FlushKeeps(crc: Checksum, s: Store, t: Trace, w: Write)
    requires Rep(crc, s, t) && Clean(w)
    ensures Rep(crc, Flush(s, w).store, t)
    ensures Flush(s, w).ok ==> Flush(s, w).store.buffer == []
  {
    if s.buffer != [] && s.open {
      assert s.active + s.buffer + [] == s.active + s.buffer;
      assert s.active + s.buffer[..0] == s.active;
    }
  }

  /** After a successful fsync the whole active segment counts. */
  lemma MarkSyncedKeeps(crc: Checksum, s: Store, t: Trace)
    requires Rep(crc, s, t) && s.buffer == []
    ensures Rep(crc, MarkSynced(s), t)
  {
    assert s.active + s.buffer == s.active;
  }

  lemma NoBytesNoRecords(crc: Checksum, rs: seq<Record>)
    requires EncodeAll(crc, rs) == []
    ensures rs == []
  {
  }

  /** Without an open file an empty buffer means everything is durable already. */
  lemma NothingPending(crc: Checksum, s: Store, log: seq<Record>, base: nat)
    requires ActiveHolds(crc, s, log, base) && s.active == [] && s.buffer == []
    ensures s.durable == |log|
  {
    NoBytesNoRecords(crc, log[base..|log|]);
  }

  lemma SyncKeeps(crc: Checksum, s: Store, t: Trace, d: Disk)
    requires Rep(crc, s, t) && Clean(d.late)
    ensures var r := Sync(s, d); Rep(crc, r.store, t) && (r.ok ==> r.store.durable == s.appended)
  {
    FlushKeeps(crc, s, t, d.late);
    var f := Flush(s, d.late);
    if f.ok && !f.store.open {
      NothingPending(crc, f.store, t.log, Base(t));
    } else if f.ok && d.sync {
      MarkSyncedKeeps(crc, f.store, t);
    }
  }

  // ---------------------------------------------------------------- rotating

  function Closed(t: Trace): Trace { t.(starts := t.starts + [|t.log|]) }

  lemma ClosedSegments(crc: Checksum, files: seq<seq<byte>>, t: Trace, active: seq<byte>)
    requires Stored(t) && SegmentsHold(crc, files, t) && HoldsRecords(crc, active, t.log, Base(t), |t.log|)
    ensures Stored(Closed(t)) && SegmentsHold(crc, files + [active], Closed(t))
  {
    var fs, t' := files + [active], Closed(t);
    forall i, j | 0 <= i < |fs| && j == i + 1 ensures HoldsRecords(crc, fs[i], t.log, t'.starts[i], t'.starts[j]) {
      if i < |files| {
        assert t'.starts[j] == t.starts[j];
      }
    }
  }

  lemma CloseKeeps(crc: Checksum, s: Store, t: Trace, open: bool)
    requires Rep(crc, s, t) && s.buffer == [] && s.durable == s.appended
    ensures Rep(crc, CloseSegment(s, open), Closed(t))
  {
    assert s.active + s.buffer == s.active;
    ClosedSegments(crc, s.closed, t, s.active);
    EncodeNone(crc, t.log, |t.log|);
  }

  ghost predicate Rotates(l: Limits, s: Store, d: Disk) {
    var f := Flush(s, d.late);
    s.open && f.ok && d.stat && |f.store.active| >= l.segmentSize && d.sync && !d.rotation.CloseFailed?
  }

  /** The three ways rotation leaves the segment open. */
  lemma RotateStays(l: Limits, s: Store, d: Disk)
    requires !Rotates(l, s, d)
    ensures var f := Flush(s, d.late); var r := Rotate(l, s, d).store;
            r == s || r == f.store || (f.ok && r == MarkSynced(f.store))
  {
  }

  lemma RotateStayKeeps(crc: Checksum, l: Limits, s: Store, t: Trace, d: Disk)
    requires Rep(crc, s, t) && Clean(d.late) && !Rotates(l, s, d)
    ensures Rep(crc, Rotate(l, s, d).store, t)
  {
    var f, r := Flush(s, d.late), Rotate(l, s, d).store;
    RotateStays(l, s, d);
    if r == s {
    } else if r == f.store {
      FlushKeeps(crc, s, t, d.late);
    } else {
      FlushKeeps(crc, s, t, d.late);
      MarkSyncedKeeps(crc, f.store, t);
    }
  }

  lemma RotateCloseKeeps(crc: Checksum, l: Limits, s: Store, t: Trace, d: Disk)
    requires Rep(crc, s, t) && Clean(d.late) && Rotates(l, s, d)
    ensures Rep(crc, Rotate(l, s, d).store, Closed(t))
  {
    var f := Flush(s, d.late);
    assert Rotate(l, s, d).store == CloseSegment(MarkSynced(f.store), d.rotation.Opened?);
    FlushKeeps(crc, s, t, d.late);
    MarkSyncedKeeps(crc, f.store, t);
    CloseKeeps(crc, MarkSynced(f.store), t, d.rotation.Opened?);
  }

  // ---------------------------------------------------------------- appending

  function Appended(t: Trace, r: Record): Trace { t.(log := t.log + [r]) }

  lemma SliceOfLonger<T>(s: seq<T>, x: T, a: nat, b: nat)
    requires a <= b <= |s|
    ensures (s + [x])[a..b] == s[a..b] && (s + [x])[a..|s| + 1] == s[a..] + [x]
  {
  }

  lemma AppendedSegments(crc: Checksum, files: seq<seq<byte>>, t: Trace, r: Record)
    requires Stored(t) && SegmentsHold(crc, files, t)
    ensures SegmentsHold(crc, files, Appended(t, r))
  {
    var log' := t.log + [r];
    forall i, j | 0 <= i < |files| && j == i + 1 ensures HoldsRecords(crc, files[i], log', t.starts[i], t.starts[j]) {
      SliceOfLonger(t.log, r, t.starts[i], t.starts[j]);
    }
  }

  lemma AppendedActive(crc: Checksum, s: Store, log: seq<Record>, base: nat, r: Record)
    requires ActiveHolds(crc, s, log, base)
    ensures ActiveHolds(crc, Buffered(crc, s, r), log + [r], base)
  {
    SliceOfLonger(log, r, base, s.durable);
    EncodeAllConcat(crc, log[base..], [r]);
    EncodeOne(crc, r);
    ConcatAssociative(s.active, s.buffer, Encode(crc, r));
    assert log[base..|log|] == log[base..];
  }

  lemma BufferedKeeps(crc: Checksum, s: Store, t: Trace, r: Record)
    requires Rep(crc, s, t) && Encodable(r) && r.lsn == s.next
    ensures Rep(crc, Buffered(crc, s, r), Appended(t, r))
  {
    AppendedSegments(crc, s.closed, t, r);
    AppendedActive(crc, s, t.log, Base(t), r);
  }

  /** Whatever fails on the way, the log stands for one more record. */
  lemma AppendKeeps(crc: Checksum, l: Limits, s: Store, t: Trace, r: Record, d: Disk) returns (t': Trace)
    requires Rep(crc, s, t) && Encodable(r) && r.lsn == s.next && CleanDisk(d)
    ensures Rep(crc, Append(crc, l, s, r, d).store, t')
    ensures t'.log == t.log + [r] && Purged(t') == Purged(t)
  {
    var b := Buffered(crc, s, r);
    BufferedKeeps(crc, s, t, r);
    t' := Appended(t, r);
    FlushKeeps(crc, b, t', d.early);
    var f := if |b.buffer| >= l.writeBufferSize then Flush(b, d.early) else Result(b, true);
    if f.ok {
      if Rotates(l, f.store, d) {
        RotateCloseKeeps(crc, l, f.store, t', d);
        t' := Closed(t');
      } else {
        RotateStayKeeps(crc, l, f.store, t', d);
      }
    }
  }

  // ---------------------------------------------------------------- purging removes an old prefix

  lemma {:induction false} PurgeableAreOld(crc: Checksum, segments: seq<seq<byte>>, c: nat, i: nat)
    requires i < Purgeable(crc, segments, c)
    ensures i < |segments| && MaxLSN(crc, segments[i]) <= c
  {
    if i > 0 {
      PurgeableAreOld(crc, segments[1..], c, i - 1);
    }
  }

  lemma SliceEncodable(log: seq<Record>, a: nat, b: nat)
    requires Numbered(log) && a <= b <= |log|
    ensures forall r :: r in log[a..b] ==> Encodable(r)
  {
    forall r | r in log[a..b] ensures Encodable(r) {
      var i :| a <= i < b && log[i] == r;
    }
  }

  lemma ReplayOfWhole(crc: Checksum, rs: seq<Record>)
    requires forall r :: r in rs ==> Encodable(r)
    ensures ReadAll(crc, EncodeAll(crc, rs)) == rs
  {
    var b := EncodeAll(crc, rs);
    assert b[..|b|] == b && rs[..|rs|] == rs;
    TornLogReplays(crc, rs, |b|);
    WholeCovers(crc, rs, |rs|, |b|);
  }

  /** A file of records a to b replays to them, and its newest number is b. */
  lemma FileReplays(crc: Checksum, file: seq<byte>, log: seq<Record>, a: nat, b: nat)
    requires Numbered(log) && HoldsRecords(crc, file, log, a, b)
    ensures ReadAll(crc, file) == log[a..b] && MaxLSN(crc, file) == if a == b then 0 else b
  {
    SliceEncodable(log, a, b);
    ReplayOfWhole(crc, log[a..b]);
    if a < b {
      assert log[a..b][b - a - 1] == log[b - 1];
    }
  }

  function Dropped(t: Trace, k: nat): Trace
    requires k < |t.starts|
  {
    t.(starts := t.starts[k..])
  }

  lemma DropSegments(crc: Checksum, files: seq<seq<byte>>, t: Trace, k: nat)
    requires Stored(t) && SegmentsHold(crc, files, t) && k <= |files|
    ensures Stored(Dropped(t, k)) && SegmentsHold(crc, files[k..], Dropped(t, k)) && Base(Dropped(t, k)) == Base(t)
  {
    var fs, t' := files[k..], Dropped(t, k);
    forall i, j | 0 <= i < |fs| && j == i + 1 ensures HoldsRecords(crc, fs[i], t.log, t'.starts[i], t'.starts[j]) {
      assert fs[i] == files[k + i] && t'.starts[i] == t.starts[k + i] && t'.starts[j] == t.starts[k + j];
    }
  }

  /** Segments without anything newer than c end at or below c, unless they are all empty. */
  lemma {:induction false} OldPrefix(crc: Checksum, files: seq<seq<byte>>, t: Trace, c: nat, k: nat)
    requires Stored(t) && SegmentsHold(crc, files, t) && k <= |files|
    requires forall i :: 0 <= i < k ==> MaxLSN(crc, files[i]) <= c
    ensures t.starts[k] == t.starts[0] || t.starts[k] <= c
  {
    if k > 0 {
      OldPrefix(crc, files, t, c, k - 1);
      assert HoldsRecords(crc, files[k - 1], t.log, t.starts[k - 1], t.starts[k]);
      FileReplays(crc, files[k - 1], t.log, t.starts[k - 1], t.starts[k]);
    }
  }

  /** Purging takes away a prefix of the log, all of it at or below the checkpoint. */
  lemma PurgeKeeps(crc: Checksum, s: Store, t: Trace, c: nat, removals: nat) returns (t': Trace)
    requires Rep(crc, s, t)
    ensures Rep(crc, Purge(crc, s, c, removals), t')
    ensures t'.log == t.log && Purged(t) <= Purged(t') && (Purged(t') == Purged(t) || Purged(t') <= c)
  {
    var j := Purgeable(crc, Older(s), c);
    forall i | 0 <= i < j ensures MaxLSN(crc, s.closed[i]) <= c {
      PurgeableAreOld(crc, Older(s), c, i);
    }
    var k := if removals < j then removals else j;
    DropSegments(crc, s.closed, t, k);
    OldPrefix(crc, s.closed, t, c, k);
    t' := Dropped(t, k);
  }

  // ---------------------------------------------------------------- crash and replay

  ghost predicate CrashPoint(s: Store, n: nat) { s.synced <= n <= |s.active| }

  /** What is on disk after a crash: the unsynced tail is cut anywhere. */
  function Crash(s: Store, n: nat): seq<seq<byte>>
    requires n <= |s.active|
  {
    if s.open then s.closed + [s.active[..n]] else s.closed
  }

  function Replay(crc: Checksum, segments: seq<seq<byte>>): seq<Record> {
    if segments == [] then [] else ReadAll(crc, segments[0]) + Replay(crc, segments[1..])
  }

  lemma {:induction false} ReplayLast(crc: Checksum, closed: seq<seq<byte>>, last: seq<byte>)
    ensures Replay(crc, closed + [last]) == Replay(crc, closed) + ReadAll(crc, last)
  {
    if closed == [] {
      assert closed + [last] == [last] && [last][1..] == [];
    } else {
      assert (closed + [last])[1..] == closed[1..] + [last];
      ReplayLast(crc, closed[1..], last);
    }
  }

  lemma SplitSlice<T>(s: seq<T>, a: nat, b: nat, c: nat)
    requires a <= b <= c <= |s|
    ensures s[a..c] == s[a..b] + s[b..c]
  {
  }

  lemma {:induction false} ReplayClosed(crc: Checksum, files: seq<seq<byte>>, t: Trace)
    requires Stored(t) && SegmentsHold(crc, files, t)
    ensures Purged(t) <= Base(t) && Replay(crc, files) == t.log[Purged(t)..Base(t)]
    decreases |files|
  {
    if files != [] {
      assert HoldsRecords(crc, files[0], t.log, t.starts[0], t.starts[1]);
      FileReplays(crc, files[0], t.log, t.starts[0], t.starts[1]);
      DropSegments(crc, files, t, 1);
      ReplayClosed(crc, files[1..], Dropped(t, 1));
      SplitSlice(t.log, t.starts[0], t.starts[1], Base(t));
    }
  }

  /** Records cut at n bytes: at least the first k, if those lie before the cut. */
  lemma ReplayCut(crc: Checksum, rs: seq<Record>, written: seq<byte>, k: nat, n: nat) returns (j: nat)
    requires written <= EncodeAll(crc, rs) && forall r :: r in rs ==> Encodable(r)
    requires k <= |rs| && |EncodeAll(crc, rs[..k])| <= n <= |written|
    ensures k <= j <= |rs| && ReadAll(crc, written[..n]) == rs[..j]
  {
    assert written[..n] == EncodeAll(crc, rs)[..n];
    TornLogReplays(crc, rs, n);
    WholeCovers(crc, rs, k, n);
    j := Whole(crc, rs, n);
  }

  /** The active segment cut at n bytes replays to the log up to some m at or beyond everything durable. */
  lemma ReplayActive(crc: Checksum, s: Store, log: seq<Record>, base: nat, n: nat) returns (m: nat)
    requires Numbered(log) && ActiveHolds(crc, s, log, base) && CrashPoint(s, n)
    ensures s.durable <= m <= |log| && ReadAll(crc, s.active[..n]) == log[base..m]
  {
    var rs, k := log[base..|log|], s.durable - base;
    SliceEncodable(log, base, |log|);
    assert rs[..k] == log[base..s.durable];
    var j := ReplayCut(crc, rs, s.active, k, n);
    m := base + j;
    assert rs[..j] == log[base..m];
  }

  /** After a crash, replay gives the log from the purge point up to some
      record at or beyond everything durable. */
  lemma CrashReplay(crc: Checksum, s: Store, t: Trace, n: nat) returns (m: nat)
    requires Rep(crc, s, t) && CrashPoint(s, n)
    ensures Purged(t) <= m && s.durable <= m <= |t.log|
    ensures Replay(crc, Crash(s, n)) == t.log[Purged(t)..m]
  {
    ReplayClosed(crc, s.closed, t);
    m := ReplayActive(crc, s, t.log, Base(t), n);
    ReplayLast(crc, s.closed, s.active[..n]);
    SplitSlice(t.log, Purged(t), Base(t), m);
    if !s.open {
      m := Base(t);
    }
  }

  /** Purging goes as far as it may: every leading segment up to the count holds
      nothing newer than the checkpoint, and the next one does. */
  lemma {:induction false} PurgeableIsExact(crc: Checksum, segments: seq<seq<byte>>, checkpoint: nat)
    ensures var j := Purgeable(crc, segments, checkpoint);
            && (forall i :: 0 <= i < j ==> MaxLSN(crc, segments[i]) <= checkpoint)
            && (j < |segments| ==> MaxLSN(crc, segments[j]) > checkpoint)
  {
    if segments != [] && MaxLSN(crc, segments[0]) <= checkpoint {
      PurgeableIsExact(crc, segments[1..], checkpoint);
      forall i | 0 <= i < Purgeable(crc, segments, checkpoint) ensures MaxLSN(crc, segments[i]) <= checkpoint {
        assert i > 0 ==> segments[i] == segments[1..][i - 1];
      }
    }
  }

  /** Replay over all segments: each contributes its whole records, in order. */
  lemma {:induction false} ReplayIsConcatenation(crc: Checksum, a: seq<seq<byte>>, b: seq<seq<byte>>)
    ensures Replay(crc, a + b) == Replay(crc, a) + Replay(crc, b)
  {
    if a == [] {
      assert a + b == b;
    } else {
      assert (a + b)[1..] == a[1..] + b;
      ReplayIsConcatenation(crc, a[1..], b);
    }
  }

  // ---------------------------------------------------------------- how much a crash can take

  /** Of the active segment the synced bytes hold the durable records and no other. */
  lemma SyncedAreDurable(crc: Checksum, s: Store, log: seq<Record>, base: nat)
    requires Numbered(log) && ActiveHolds(crc, s, log, base)
    ensures ReadAll(crc, s.active[..s.synced]) == log[base..s.durable]
  {
    var durable, rest := log[base..s.durable], log[s.durable..|log|];
    EncodeAllConcat(crc, durable, rest);
    SplitSlice(log, base, s.durable, |log|);
    SliceEncodable(log, base, s.durable);
    assert s.active[..s.synced] == (s.active + s.buffer)[..s.synced] == EncodeAll(crc, durable);
    ReplayOfWhole(crc, durable);
  }

  /** The worst crash leaves the durable records, and nothing behind them: what
      is not durable can be lost. */
  lemma WorstCrash(crc: Checksum, s: Store, t: Trace)
    requires Rep(crc, s, t)
    ensures CrashPoint(s, s.synced) && Purged(t) <= s.durable <= |t.log|
    ensures Replay(crc, Crash(s, s.synced)) == t.log[Purged(t)..s.durable]
  {
    ReplayClosed(crc, s.closed, t);
    SyncedAreDurable(crc, s, t.log, Base(t));
    ReplayLast(crc, s.closed, s.active[..s.synced]);
    SplitSlice(t.log, Purged(t), Base(t), s.durable);
    if !s.open {
      NoBytesNoRecords(crc, t.log[Base(t)..s.durable]);
    }
  }

  // ---------------------------------------------------------------- when an append succeeds

  /** With an open file: if the write goes through, the file can be measured,
      and a full segment is synced and followed by a new one. Without one: as
      long as the buffer is not full. */
  lemma AppendSucceedsIff(crc: Checksum, l: Limits, s: Store, r: Record, d: Disk)
    ensures var pending := |s.buffer| + |Encode(crc, r)|;
            Append(crc, l, s, r, d).ok <==>
              if s.open
              then
                && (if pending >= l.writeBufferSize then d.early.Wrote? else d.late.Wrote?) && d.stat
                && (|s.active| + pending >= l.segmentSize ==> d.sync && d.rotation.Opened?)
              else pending < l.writeBufferSize
  {
  }

  /** A successful append to an open file leaves nothing buffered; it begins a
      new segment exactly when the old one has reached its size. */
  lemma AppendedBytes(crc: Checksum, l: Limits, s: Store, r: Record, d: Disk)
    requires s.open && Append(crc, l, s, r, d).ok
    ensures var after, written := Append(crc, l, s, r, d).store, s.active + s.buffer + Encode(crc, r);
            && after.open && after.buffer == []
            && (if |written| < l.segmentSize then after.closed == s.closed && after.active == written
                else after.closed == s.closed + [written] && after.active == [])
  {
    assert s.active + (s.buffer + Encode(crc, r)) == s.active + s.buffer + Encode(crc, r);
  }

  /** Purging keeps the segment last written to, even when its file is not open any more. */
  lemma LastWrittenStays(crc: Checksum, s: Store, checkpoint: nat, removals: nat)
    ensures var after := Purge(crc, s, checkpoint, removals);
            && after.active == s.active && after.buffer == s.buffer
            && (!s.open && s.closed != [] ==>
                  after.closed != [] && after.closed[|after.closed| - 1] == s.closed[|s.closed| - 1])
  {
  }
}
