/** The engine over its log, and a crash: every acknowledged write is in the
    replayed log or in a table. The engine machine (EngineReads) and the log
    machine (GroupCommit) run side by side; they meet where a record is appended
    and where a flushed memtable releases records. */
module Recovery {
  import opened Keys
  import opened WalRecord
  import W = WalStore
  import G = GroupCommit
  import E = EngineReads

  /** tablesSynced: a registered table survives a crash. The source closes and
      renames a table without syncing it. */
  datatype Deployment = Deployment(engine: E.Config, wal: G.Config, tablesSynced: bool)

  /** places[i] is where in the log of records write i of the engine stands;
      records of appends that reported an error stand between them. */
  datatype State = State(engine: E.State, wal: G.State, places: seq<nat>)

  datatype Step =
    | Write(w: E.Write, disk: W.Disk)       // appended and handed to the memtable
    | FailedWrite(w: E.Write, disk: W.Disk) // reported as failed, though the record may be in the log
    | EngineStep(e: E.Step)
    | WalStep(g: G.Step)
    | Release(removals: nat)                // a registered table releases its records

  function OpOf(c: E.Config, w: E.Write): Op {
    if w.value == c.tombstone then Delete else Put
  }

  function AppendOf(c: E.Config, w: E.Write, disk: W.Disk): G.Step {
    G.Append(OpOf(c, w), w.key, if w.value == c.tombstone then [] else w.value, disk)
  }

  ghost predicate Appends(crc: Checksum, d: Deployment, s: G.State, t: G.State, w: E.Write, disk: W.Disk, ok: bool) {
    var a := AppendOf(d.engine, w, disk);
    && G.Enabled(d.wal, s, a) && t == G.Apply(crc, d.wal, s, a)
    && ok == W.Append(crc, d.wal.limits, s.store, Record(s.store.next, a.op, a.key, a.value), disk).ok
  }

  /** The record number of the last of the first n writes. */
  function NumberOf(s: State, n: nat): nat {
    if 0 < n <= |s.places| && s.places[n - 1] < |s.wal.log| then s.wal.log[s.places[n - 1]].lsn else 0
  }

  ghost predicate Next(crc: Checksum, d: Deployment, s: State, t: State, step: Step) {
    match step
    case Write(w, disk) =>
      && Appends(crc, d, s.wal, t.wal, w, disk, true) && E.Next(d.engine, s.engine, t.engine, E.Append(w))
      && t.places == s.places + [|s.wal.log|]
    case FailedWrite(w, disk) =>
      Appends(crc, d, s.wal, t.wal, w, disk, false) && t == s.(wal := t.wal)
    case EngineStep(e) =>
      !e.Append? && !e.Purge? && E.Next(d.engine, s.engine, t.engine, e) && t == s.(engine := t.engine)
    case WalStep(g) =>
      !g.Append? && !g.Purge? && G.Enabled(d.wal, s.wal, g)
      && t == s.(wal := G.Apply(crc, d.wal, s.wal, g))
    case Release(k) =>
      && s.engine.queue != [] && E.Next(d.engine, s.engine, t.engine, E.Purge) && t.places == s.places
      && t.wal == G.Apply(crc, d.wal, s.wal, G.Purge(NumberOf(s, s.engine.queue[0].hi), k))
  }

  datatype Run = Start(state: State) | Extend(prefix: Run, step: Step, state: State)

  ghost predicate IsRun(crc: Checksum, d: Deployment, r: Run) {
    match r
    case Start(s) => E.Init(s.engine) && s.wal == G.Initial() && s.places == []
    case Extend(p, step, s) => IsRun(crc, d, p) && Next(crc, d, p.state, s, step)
  }

  // ---------------------------------------------------------------- both machines run as they do alone

  lemma {:induction false} EngineRun(crc: Checksum, d: Deployment, r: Run) returns (e: E.Run)
    requires IsRun(crc, d, r)
    ensures E.IsRun(d.engine, e) && e.state == r.state.engine
  {
    match r
    case Start(s) => e := E.Start(s.engine);
    case Extend(p, step, s) =>
      e := EngineRun(crc, d, p);
      match step
      case Write(w, _) => e := E.Extend(e, E.Append(w), s.engine);
      case EngineStep(x) => e := E.Extend(e, x, s.engine);
      case Release(_) => e := E.Extend(e, E.Purge, s.engine);
      case _ =>
  }

  lemma {:induction false} WalRun(crc: Checksum, d: Deployment, r: Run) returns (g: G.Run)
    requires IsRun(crc, d, r)
    ensures G.IsRun(crc, d.wal, g) && G.Final(g) == r.state.wal
  {
    match r
    case Start(_) => g := G.Start;
    case Extend(p, step, s) =>
      g := WalRun(crc, d, p);
      match step
      case Write(w, disk) => g := G.Extend(g, AppendOf(d.engine, w, disk), s.wal);
      case FailedWrite(w, disk) => g := G.Extend(g, AppendOf(d.engine, w, disk), s.wal);
      case WalStep(x) => g := G.Extend(g, x, s.wal);
      case Release(k) => g := G.Extend(g, G.Purge(NumberOf(p.state, p.state.engine.queue[0].hi), k), s.wal);
      case _ =>
  }

  // ---------------------------------------------------------------- how they are coupled

  ghost predicate Increasing(places: seq<nat>, n: nat) {
    && (forall i, j :: 0 <= i < j < |places| ==> places[i] < places[j])
    && (forall i :: 0 <= i < |places| ==> places[i] < n)
  }

  /** The record says what the write says. */
  ghost predicate Matches(c: E.Config, w: E.Write, r: Record) {
    r.key == w.key && r.op == OpOf(c, w) && (r.op == Put ==> r.value == w.value)
  }

  ghost predicate Coupled(c: E.Config, s: State) {
    && |s.places| == |s.engine.log| && Increasing(s.places, |s.wal.log|)
    && (forall i :: 0 <= i < |s.places| ==> Matches(c, s.engine.log[i], s.wal.log[s.places[i]]))
    && s.engine.purged <= |s.places|
    && s.wal.checkpoint <= NumberOf(s, s.engine.purged)
  }

  lemma NumbersGrow(s: State, m: nat, n: nat)
    requires Increasing(s.places, |s.wal.log|) && W.Numbered(s.wal.log) && m <= n <= |s.places|
    ensures NumberOf(s, m) <= NumberOf(s, n)
  {
  }

  lemma NumbersStay(s: State, t: State, n: nat)
    requires s.wal.log <= t.wal.log && s.places <= t.places && Increasing(s.places, |s.wal.log|) && n <= |s.places|
    ensures NumberOf(t, n) == NumberOf(s, n)
  {
  }

  lemma WriteKeepsCoupled(crc: Checksum, d: Deployment, s: State, t: State, w: E.Write, disk: W.Disk)
    requires Coupled(d.engine, s) && Next(crc, d, s, t, Write(w, disk))
    ensures Coupled(d.engine, t)
  {
    NumbersStay(s, t, s.engine.purged);
  }

  lemma FailedKeepsCoupled(crc: Checksum, d: Deployment, s: State, t: State, w: E.Write, disk: W.Disk)
    requires Coupled(d.engine, s) && Next(crc, d, s, t, FailedWrite(w, disk))
    ensures Coupled(d.engine, t)
  {
    NumbersStay(s, t, s.engine.purged);
  }

  lemma ReleaseKeepsCoupled(crc: Checksum, d: Deployment, s: State, t: State, k: nat)
    requires Coupled(d.engine, s) && Next(crc, d, s, t, Release(k)) && W.Numbered(s.wal.log)
    requires s.engine.queue != [] && s.engine.queue[0].hi <= |s.places|
    ensures Coupled(d.engine, t)
  {
    var hi := s.engine.queue[0].hi;
    NumbersGrow(s, hi, t.engine.purged);
    NumbersGrow(s, s.engine.purged, t.engine.purged);
    NumbersStay(s, t, t.engine.purged);
  }

  lemma EngineKeepsCoupled(crc: Checksum, d: Deployment, s: State, t: State, e: E.Step)
    requires Coupled(d.engine, s) && Next(crc, d, s, t, EngineStep(e))
    ensures Coupled(d.engine, t)
  {
    assert t.engine.log == s.engine.log && t.engine.purged == s.engine.purged;
    NumbersStay(s, t, s.engine.purged);
  }

  lemma WalKeepsCoupled(crc: Checksum, d: Deployment, s: State, t: State, g: G.Step)
    requires Coupled(d.engine, s) && Next(crc, d, s, t, WalStep(g))
    ensures Coupled(d.engine, t)
  {
    assert t.wal.log == s.wal.log && t.wal.checkpoint == s.wal.checkpoint;
    NumbersStay(s, t, s.engine.purged);
  }

  lemma LogNumbered(crc: Checksum, d: Deployment, r: Run)
    requires IsRun(crc, d, r) && !d.wal.tears
    ensures W.Numbered(r.state.wal.log)
  {
    var g := WalRun(crc, d, r);
    var t := G.RunHolds(crc, d.wal, g);
  }

  lemma QueueWithinLog(crc: Checksum, d: Deployment, r: Run)
    requires IsRun(crc, d, r) && r.state.engine.queue != []
    ensures r.state.engine.queue[0].hi <= |r.state.engine.log|
  {
    var e := EngineRun(crc, d, r);
    E.RunKeepsInv(d.engine, e);
    assert E.LayerOk(d.engine, e.state.log, e.state.queue[0]);
  }

  lemma {:induction false} RunKeepsCoupled(crc: Checksum, d: Deployment, r: Run)
    requires IsRun(crc, d, r) && !d.wal.tears
    ensures Coupled(d.engine, r.state)
  {
    match r
    case Start(_) =>
    case Extend(p, step, s) =>
      RunKeepsCoupled(crc, d, p);
      match step
      case Write(w, disk) => WriteKeepsCoupled(crc, d, p.state, s, w, disk);
      case FailedWrite(w, disk) => FailedKeepsCoupled(crc, d, p.state, s, w, disk);
      case EngineStep(e) => EngineKeepsCoupled(crc, d, p.state, s, e);
      case WalStep(g) => WalKeepsCoupled(crc, d, p.state, s, g);
      case Release(k) =>
        LogNumbered(crc, d, p);
        QueueWithinLog(crc, d, p);
        ReleaseKeepsCoupled(crc, d, p.state, s, k);
  }

  // ---------------------------------------------------------------- what a crash leaves

  /** Somebody was told that write i is durable. */
  ghost predicate AckedWrite(s: State, i: nat) {
    i < |s.places| && exists id :: G.Acked(s.wal.waiters, id) && 0 < NumberOf(s, i + 1) <= s.wal.waiters[id].lsn
  }

  ghost predicate Replayed(crc: Checksum, s: State, n: nat, i: nat)
    requires n <= |s.wal.store.active|
  {
    i < |s.places| && s.places[i] < |s.wal.log| && s.wal.log[s.places[i]] in W.Replay(crc, W.Crash(s.wal.store, n))
  }

  /** The table holds the value of write i or a later one of the same key. */
  ghost predicate Covers(log: seq<E.Write>, t: E.Layer, i: nat) {
    && t.lo <= i < t.hi <= |log| && log[i].key in t.data
    && E.Found(t.data[log[i].key]) == E.ValueAt(log, log[i].key, t.hi)
  }

  ghost predicate InTable(s: State, kept: set<nat>, i: nat) {
    exists j :: j in kept && j < |s.engine.tables| && Covers(s.engine.log, s.engine.tables[j], i)
  }

  /** The log file keeps its first n bytes, and of the tables those in kept are left. */
  ghost predicate CrashOf(d: Deployment, s: State, n: nat, kept: set<nat>) {
    W.CrashPoint(s.wal.store, n) && (d.tablesSynced ==> forall j :: 0 <= j < |s.engine.tables| ==> j in kept)
  }

  ghost predicate Recovers(crc: Checksum, s: State, n: nat, kept: set<nat>)
    requires n <= |s.wal.store.active|
  {
    forall i: nat :: AckedWrite(s, i) ==> Replayed(crc, s, n, i) || InTable(s, kept, i)
  }

  /** What the checkpoint has released is in a table. */
  lemma ReleasedIsInTable(crc: Checksum, d: Deployment, r: Run, kept: set<nat>, i: nat)
    requires IsRun(crc, d, r) && i < r.state.engine.purged
    requires forall j :: 0 <= j < |r.state.engine.tables| ==> j in kept
    ensures InTable(r.state, kept, i)
  {
    var e := EngineRun(crc, d, r);
    var j := E.PurgedIsInTable(d.engine, e, i);
    assert Covers(r.state.engine.log, r.state.engine.tables[j], i);
  }

  lemma NotReleasedIsReplayed(crc: Checksum, s: State, n: nat, p: nat, m: nat, i: nat)
    requires n <= |s.wal.store.active| && G.ReplaysTo(crc, s.wal, n, p, m)
    requires Increasing(s.places, |s.wal.log|) && i < |s.places| && p < NumberOf(s, i + 1) <= m
    ensures Replayed(crc, s, n, i)
  {
    var k := s.places[i];
    assert s.wal.log[k].lsn == k + 1;
    assert s.wal.log[p..m][k - p] == s.wal.log[k];
  }

  /** Every acknowledged write survives a crash: it is replayed, or a table holds it or something newer. */
  lemma AckedIsRecovered(crc: Checksum, d: Deployment, r: Run, n: nat, kept: set<nat>)
    requires IsRun(crc, d, r) && !d.wal.tears && d.tablesSynced && CrashOf(d, r.state, n, kept)
    ensures Recovers(crc, r.state, n, kept)
  {
    var s := r.state;
    RunKeepsCoupled(crc, d, r);
    LogNumbered(crc, d, r);
    var g := WalRun(crc, d, r);
    G.AckedSurvives(crc, d.wal, g, n);
    var p, m :| G.ReplaysTo(crc, s.wal, n, p, m);
    forall i: nat | AckedWrite(s, i) ensures Replayed(crc, s, n, i) || InTable(s, kept, i) {
      if NumberOf(s, i + 1) <= p {
        ReleasedBefore(s, i);
        ReleasedIsInTable(crc, d, r, kept, i);
      } else {
        NotReleasedIsReplayed(crc, s, n, p, m, i);
      }
    }
  }

  /** A write numbered within the checkpoint has been purged by the engine. */
  lemma ReleasedBefore(s: State, i: nat)
    requires Increasing(s.places, |s.wal.log|) && W.Numbered(s.wal.log) && i < |s.places|
    requires s.engine.purged <= |s.places| && 0 < NumberOf(s, i + 1) <= s.wal.checkpoint <= NumberOf(s, s.engine.purged)
    ensures i < s.engine.purged
  {
  }

  // ---------------------------------------------------------------- how an acknowledged write is lost

  lemma Extended(crc: Checksum, d: Deployment, r: Run, step: Step, t: State) returns (e: Run)
    requires IsRun(crc, d, r) && Next(crc, d, r.state, t, step)
    ensures e == Extend(r, step, t) && IsRun(crc, d, e)
  {
    e := Extend(r, step, t);
  }

  /** A waiter gets everything acknowledged, while the engine does nothing. */
  lemma {:induction false} Acknowledge(crc: Checksum, d: Deployment, r: Run, store: W.Store, log: seq<Record>, k: nat)
      returns (t: Run)
    requires IsRun(crc, d, r) && r.state.wal == G.AckState(store, log, k) && k <= 5
    requires d.wal.grouped && store.open && store.buffer == [] && store.appended > 0
    ensures IsRun(crc, d, t) && t.state == r.state.(wal := G.AckState(store, log, 5))
    decreases 5 - k
  {
    t := r;
    if k < 5 {
      G.AckSteps(crc, d.wal, store, log, k);
      t := Extended(crc, d, r, WalStep(G.AckStep(store, k)), r.state.(wal := G.AckState(store, log, k + 1)));
      t := Acknowledge(crc, d, t, store, log, k + 1);
    }
  }

  /** Every memtable with an entry is full. */
  function Tiny(): E.Config {
    E.Config([9], 1, (data: map<Key, Key>) => data != map[])
  }

  const W0: E.Write := E.Write([], [])

  function Empty(): E.State {
    E.State([], 0, map[0 := E.Memtable(E.Layer(map[], 0, 0), false)], 0, [], [], E.WIdle, E.FIdle, E.RIdle)
  }

  /** The engine after the first write has been appended. */
  function Appended(): E.State {
    Empty().(log := [W0], writer := E.WAppended)
  }

  lemma FirstWrite()
    ensures E.Init(Empty()) && E.Next(Tiny(), Empty(), Appended(), E.Append(W0))
  {
    assert [] + [W0] == [W0];
  }

  /** An acknowledged write that neither the log nor a table has. */
  lemma LostWrite(crc: Checksum, s: State, n: nat)
    requires n <= |s.wal.store.active| && W.Replay(crc, W.Crash(s.wal.store, n)) == [] && |s.places| == 1
    requires G.Acked(s.wal.waiters, 0) && 0 < NumberOf(s, 1) <= s.wal.waiters[0].lsn
    ensures !Recovers(crc, s, n, {})
  {
    assert AckedWrite(s, 0);
  }

  /** The same after a waiter has had everything acknowledged. */
  lemma LostAck(crc: Checksum, engine: E.State, store: W.Store, log: seq<Record>, place: nat, n: nat)
    requires W.CrashPoint(W.MarkSynced(store), n) && W.Replay(crc, W.Crash(W.MarkSynced(store), n)) == []
    requires place < |log| && 0 < log[place].lsn <= store.appended && engine.tables == []
    ensures var s := State(engine, G.AckState(store, log, 5), [place]);
            && (forall d: Deployment :: CrashOf(d, s, n, {}))
            && !Recovers(crc, s, n, {})
  {
    var s := State(engine, G.AckState(store, log, 5), [place]);
    assert s.wal.store == W.MarkSynced(store) && NumberOf(s, 1) == log[place].lsn;
    LostWrite(crc, s, n);
  }

  function TornState(crc: Checksum): State {
    State(Appended(), G.AckState(G.TornTwice(crc).store, [G.First(), G.Second()], 5), [1])
  }

  lemma TornRun(crc: Checksum, synced: bool) returns (r: Run)
    ensures IsRun(crc, Deployment(Tiny(), G.TEARING, synced), r) && r.state == TornState(crc)
  {
    var d := Deployment(Tiny(), G.TEARING, synced);
    G.TornAppends(crc);
    FirstWrite();
    r := Start(State(Empty(), G.Initial(), []));
    r := Extended(crc, d, r, FailedWrite(W0, G.GOOD.(early := W.Failed(1))), State(Empty(), G.TornOnce(crc), []));
    r := Extended(crc, d, r, Write(W0, G.GOOD), State(Appended(), G.TornTwice(crc), [1]));
    r := Acknowledge(crc, d, r, G.TornTwice(crc).store, [G.First(), G.Second()], 0);
  }

  /** A torn write, repeated, makes the log unreadable behind it. */
  lemma TornWriteLoses(crc: Checksum, synced: bool) returns (r: Run)
    ensures IsRun(crc, Deployment(Tiny(), G.TEARING, synced), r)
    ensures CrashOf(Deployment(Tiny(), G.TEARING, synced), r.state, 51, {}) && !Recovers(crc, r.state, 51, {})
  {
    r := TornRun(crc, synced);
    G.TornStoreUnreadable(crc);
    LostAck(crc, Appended(), G.TornTwice(crc).store, [G.First(), G.Second()], 1, 51);
  }

  // A full segment is closed at once, so that a checkpoint can remove it.

  const L0: E.Layer := E.Layer(map[[] := []], 0, 1)

  function EagerWal(tears: bool): G.Config { G.Config(W.Limits(1, 1), true, tears) }

  function Rotated(crc: Checksum): W.Store {
    W.Store([Encode(crc, G.First())], [], true, 0, [], 2, 1, 1)
  }

  lemma RotatingAppend(crc: Checksum, tears: bool)
    ensures G.Enabled(EagerWal(tears), G.Initial(), G.GOOD_APPEND)
    ensures G.Apply(crc, EagerWal(tears), G.Initial(), G.GOOD_APPEND) == G.AckState(Rotated(crc), [G.First()], 0)
    ensures W.Append(crc, W.Limits(1, 1), W.Fresh(), G.First(), G.GOOD).ok
  {
    var b := Encode(crc, G.First());
    assert [] + b == b;
    assert [] + [b] == [b] && [] + [G.First()] == [G.First()];
  }

  lemma RotatedSegmentIsReleased(crc: Checksum)
    ensures W.Purge(crc, Rotated(crc), 1, 1) == Rotated(crc).(closed := [])
  {
    var b := Encode(crc, G.First());
    W.EncodeOne(crc, G.First());
    assert b[..|b|] == b;
    TornLogReplays(crc, [G.First()], |b|);
    assert W.Purgeable(crc, [b], 1) == 1 + W.Purgeable(crc, [b][1..], 1);
    assert [b][1..] == [];
  }

  /** The memtable with the first write is sealed, flushed and registered in six steps. */
  function FlushStep(k: nat): E.Step {
    match k
    case 0 => E.Add
    case 1 => E.Push
    case 2 => E.Swap(1)
    case 3 => E.Clear
    case 4 => E.Flush
    case _ => E.Register
  }

  function FlushState(k: nat): E.State {
    var next := E.Memtable(E.Layer(map[], 1, 1), false);
    var held, cleared := E.Memtable(L0, false), E.Memtable(E.Layer(map[], 0, 1), true);
    match k
    case 0 => Appended()
    case 1 => E.State([W0], 0, map[0 := held], 0, [], [], E.WAdded, E.FIdle, E.RIdle)
    case 2 => E.State([W0], 0, map[0 := held], 0, [L0], [], E.WPushed, E.FIdle, E.RIdle)
    case 3 => E.State([W0], 0, map[0 := held, 1 := next], 1, [L0], [], E.WSwapped(0), E.FIdle, E.RIdle)
    case 4 => E.State([W0], 0, map[0 := cleared, 1 := next], 1, [L0], [], E.WIdle, E.FIdle, E.RIdle)
    case 5 => E.State([W0], 0, map[0 := cleared, 1 := next], 1, [L0], [], E.WIdle, E.FFlushed, E.RIdle)
    case _ => E.State([W0], 0, map[0 := cleared, 1 := next], 1, [L0], [L0], E.WIdle, E.FRegistered, E.RIdle)
  }

  lemma FlushSteps(k: nat)
    requires k < 6
    ensures E.Next(Tiny(), FlushState(k), FlushState(k + 1), FlushStep(k))
  {
    assert [] + [L0] == [L0];
    assert L0.data != map[] by { assert [] in L0.data; }
  }

  lemma {:induction false} FlushAll(crc: Checksum, d: Deployment, r: Run, k: nat) returns (t: Run)
    requires IsRun(crc, d, r) && d.engine == Tiny() && r.state.engine == FlushState(k) && k <= 6
    ensures IsRun(crc, d, t) && t.state == r.state.(engine := FlushState(6))
    decreases 6 - k
  {
    t := r;
    if k < 6 {
      FlushSteps(k);
      t := Extended(crc, d, r, EngineStep(FlushStep(k)), r.state.(engine := FlushState(k + 1)));
      t := FlushAll(crc, d, t, k + 1);
    }
  }

  lemma RegisteredRun(crc: Checksum, tears: bool) returns (r: Run)
    ensures IsRun(crc, Deployment(Tiny(), EagerWal(tears), false), r)
    ensures r.state == State(FlushState(6), G.AckState(Rotated(crc), [G.First()], 5), [0])
  {
    var d := Deployment(Tiny(), EagerWal(tears), false);
    FirstWrite();
    RotatingAppend(crc, tears);
    r := Start(State(Empty(), G.Initial(), []));
    r := Extended(crc, d, r, Write(W0, G.GOOD), State(Appended(), G.AckState(Rotated(crc), [G.First()], 0), [0]));
    r := FlushAll(crc, d, r, 0);
    r := Acknowledge(crc, d, r, Rotated(crc), [G.First()], 0);
  }

  function ReleasedWal(crc: Checksum): G.State {
    G.AckState(Rotated(crc), [G.First()], 5).(store := Rotated(crc).(closed := []), checkpoint := 1)
  }

  lemma ReleaseTakes(crc: Checksum, d: Deployment, s: State, t: State)
    requires s.engine == FlushState(6) && s.places == [0] && |s.wal.log| == 1 && s.wal.log[0].lsn == 1
             && s.wal.checkpoint == 0
    requires t == State(FlushState(6).(purged := 1, flusher := E.FPurged),
                        s.wal.(store := W.Purge(crc, s.wal.store, 1, 1), checkpoint := 1), [0])
    ensures Next(crc, d, s, t, Release(1))
  {
    assert NumberOf(s, 1) == 1;
  }

  function Released(crc: Checksum): State {
    State(FlushState(6).(purged := 1, flusher := E.FPurged), ReleasedWal(crc), [0])
  }

  lemma ReleasedRun(crc: Checksum, tears: bool) returns (r: Run)
    ensures IsRun(crc, Deployment(Tiny(), EagerWal(tears), false), r) && r.state == Released(crc)
  {
    r := RegisteredRun(crc, tears);
    RotatedSegmentIsReleased(crc);
    ReleaseTakes(crc, Deployment(Tiny(), EagerWal(tears), false), r.state, Released(crc));
    r := Extended(crc, Deployment(Tiny(), EagerWal(tears), false), r, Release(1), Released(crc));
  }

  lemma ReleasedIsLost(crc: Checksum)
    ensures W.CrashPoint(Released(crc).wal.store, 0) && !Recovers(crc, Released(crc), 0, {})
  {
    G.ReplayOne(crc, []);
    LostWrite(crc, Released(crc), 0);
  }

  /** The table is registered, its record is released, and then the table is lost. */
  lemma UnsyncedTableLoses(crc: Checksum, tears: bool) returns (r: Run)
    ensures IsRun(crc, Deployment(Tiny(), EagerWal(tears), false), r)
    ensures CrashOf(Deployment(Tiny(), EagerWal(tears), false), r.state, 0, {}) && !Recovers(crc, r.state, 0, {})
  {
    r := ReleasedRun(crc, tears);
    ReleasedIsLost(crc);
  }

  ghost predicate AlwaysRecovers(crc: Checksum, tears: bool, synced: bool) {
    forall d: Deployment, r: Run, n: nat, kept: set<nat> ::
      d.wal.tears == tears && d.tablesSynced == synced && IsRun(crc, d, r) && CrashOf(d, r.state, n, kept) ==>
        Recovers(crc, r.state, n, kept)
  }

  /** Every acknowledged write is recovered after every crash exactly when a
      failing log write leaves nothing behind and registered tables survive. */
  lemma RecoversIff(crc: Checksum, tears: bool, synced: bool)
    ensures AlwaysRecovers(crc, tears, synced) <==> !tears && synced
  {
    if tears {
      var r := TornWriteLoses(crc, synced);
    } else if !synced {
      var r := UnsyncedTableLoses(crc, tears);
    } else {
      forall d: Deployment, r: Run, n: nat, kept: set<nat>
        | d.wal.tears == tears && d.tablesSynced == synced && IsRun(crc, d, r) && CrashOf(d, r.state, n, kept)
        ensures Recovers(crc, r.state, n, kept)
      {
        AckedIsRecovered(crc, d, r, n, kept);
      }
    }
  }
}
