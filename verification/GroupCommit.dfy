/** Group commit over the segmented log (src/wal/wal.go): appenders, waiters for
    durability and purging as interleaved steps, then a crash and a replay. */
module GroupCommit {
  import opened Keys
  import opened Codec
  import opened WalRecord
  import opened WalStore

  /** Where one call of WaitDurable is. `Leading` and `Fsynced` run without the
      lock: between them lies the fsync made for everybody. */
  datatype Phase = Direct | Checking | Blocked | Leading | Fsynced(ok: bool) | Returned(ok: bool)

  datatype Waiter = Waiter(lsn: nat, phase: Phase)

  /** `log` is every record ever numbered, `checkpoint` the largest purge argument. */
  datatype State = State(store: Store, syncing: bool, flushed: nat, waiters: Waiters, log: seq<Record>,
                         checkpoint: nat)

  /** Without `tears`, a write that fails leaves nothing behind. */
  datatype Config = Config(limits: Limits, grouped: bool, tears: bool)

  datatype Step =
    | Append(op: Op, key: Key, value: Key, disk: Disk)
    | Call(id: nat, lsn: nat)
    | Check(id: nat)
    | Fsync(id: nat, disk: Disk)
    | Publish(id: nat)
    | Flush(disk: Disk)
    | Purge(upTo: nat, removals: nat)

  function Initial(): State { State(Fresh(), false, 0, map[], [], 0) }

  ghost predicate Allowed(cfg: Config, d: Disk) { cfg.tears || CleanDisk(d) }

  type Waiters = map<nat, Waiter>

  ghost predicate In(ws: Waiters, id: nat, phases: set<Phase>) { id in ws && ws[id].phase in phases }

  ghost predicate Leader(ws: Waiters, id: nat) { In(ws, id, {Leading, Fsynced(true), Fsynced(false)}) }

  ghost predicate Enabled(cfg: Config, s: State, step: Step) {
    match step
    case Append(op, key, value, d) =>
      Allowed(cfg, d) && s.store.next <= MAX_UINT64 && Encodable(Record(s.store.next, op, key, value))
    case Call(id, lsn) => id !in s.waiters && lsn <= s.store.appended
    case Check(id) => In(s.waiters, id, {Checking})
    case Fsync(id, d) => Allowed(cfg, d) && In(s.waiters, id, {Leading, Direct})
    case Publish(id) => In(s.waiters, id, {Fsynced(true), Fsynced(false)})
    case Flush(d) => Allowed(cfg, d)
    case Purge(_, _) => true
  }

  function Move(s: State, id: nat, phase: Phase): State
    requires id in s.waiters
  {
    s.(waiters := s.waiters[id := s.waiters[id].(phase := phase)])
  }

  /** Broadcast: every blocked waiter looks again. */
  function Woken(ws: Waiters): Waiters {
    map id | id in ws :: if ws[id].phase.Blocked? then ws[id].(phase := Checking) else ws[id]
  }

  ghost function Apply(crc: Checksum, cfg: Config, s: State, step: Step): State
    requires Enabled(cfg, s, step)
  {
    match step
    case Append(op, key, value, d) =>
      var r := Record(s.store.next, op, key, value);
      s.(store := WalStore.Append(crc, cfg.limits, s.store, r, d).store, log := s.log + [r])
    case Call(id, lsn) => s.(waiters := s.waiters[id := Waiter(lsn, if cfg.grouped then Checking else Direct)])
    case Check(id) =>
      if s.waiters[id].lsn <= s.flushed then Move(s, id, Returned(true))
      else if s.syncing then Move(s, id, Blocked)
      else Move(s, id, Leading).(syncing := true)
    case Fsync(id, d) =>
      var r := Sync(s.store, d);
      Move(s, id, if s.waiters[id].phase.Direct? then Returned(r.ok) else Fsynced(r.ok)).(store := r.store)
    case Publish(id) =>
      var w := s.waiters[id];
      var s' := s.(flushed := s.store.durable, syncing := false, waiters := Woken(s.waiters));
      Move(s', id, if !w.phase.ok && w.lsn > s'.flushed then Returned(false) else Checking)
    case Flush(d) => s.(store := Sync(s.store, d).store)
    case Purge(c, k) => s.(store := WalStore.Purge(crc, s.store, c, k),
                           checkpoint := if c > s.checkpoint then c else s.checkpoint)
  }

  datatype Run = Start | Extend(prefix: Run, step: Step, state: State)

  function Final(r: Run): State { if r.Start? then Initial() else r.state }

  ghost predicate IsRun(crc: Checksum, cfg: Config, r: Run) {
    r.Extend? ==> IsRun(crc, cfg, r.prefix) && Enabled(cfg, Final(r.prefix), r.step)
                  && r.state == Apply(crc, cfg, Final(r.prefix), r.step)
  }

  // ---------------------------------------------------------------- the protocol

  /** The counters are ordered; a closed file with nothing buffered hides nothing. */
  ghost predicate Ordered(s: Store) {
    s.durable <= s.appended < s.next && (!s.open && s.buffer == [] ==> s.durable == s.appended)
  }

  ghost predicate Acked(ws: Waiters, id: nat) { In(ws, id, {Returned(true)}) }

  ghost predicate OneLeader(ws: Waiters) {
    forall i, j :: Leader(ws, i) && Leader(ws, j) ==> i == j
  }

  /** A leader is at work exactly while `syncing` is set, and only then does anybody sleep. */
  ghost predicate Elected(ws: Waiters, syncing: bool) {
    && OneLeader(ws)
    && (syncing <==> exists id :: Leader(ws, id))
    && (forall id :: In(ws, id, {Blocked}) ==> syncing)
  }

  ghost predicate Promised(ws: Waiters, store: Store) {
    && (forall id :: id in ws ==> ws[id].lsn <= store.appended)
    && (forall id :: Acked(ws, id) ==> ws[id].lsn <= store.durable)
  }

  ghost predicate Protocol(s: State) {
    Ordered(s.store) && s.flushed <= s.store.durable && Elected(s.waiters, s.syncing) && Promised(s.waiters, s.store)
  }

  lemma FlushOrdered(s: Store, w: Write)
    requires Ordered(s)
    ensures var f := WalStore.Flush(s, w);
            Ordered(f.store) && f.store.durable == s.durable && f.store.appended == s.appended
    ensures WalStore.Flush(s, w).store.open == s.open
            && (WalStore.Flush(s, w).ok ==> WalStore.Flush(s, w).store.buffer == [])
  {
  }

  lemma SyncOrdered(s: Store, d: Disk)
    requires Ordered(s)
    ensures var r := Sync(s, d); Ordered(r.store) && s.durable <= r.store.durable && r.store.appended == s.appended
                                 && (r.ok ==> r.store.durable == s.appended)
  {
    FlushOrdered(s, d.late);
  }

  lemma AppendOrdered(crc: Checksum, l: Limits, s: Store, r: Record, d: Disk)
    requires Ordered(s)
    ensures var a := WalStore.Append(crc, l, s, r, d).store;
            Ordered(a) && s.durable <= a.durable && a.appended == s.next && a.next == s.next + 1
  {
    var b := Buffered(crc, s, r);
    FlushOrdered(b, d.early);
    var f := if |b.buffer| >= l.writeBufferSize then WalStore.Flush(b, d.early) else Result(b, true);
    FlushOrdered(f.store, d.late);
  }

  /** A waiter that is not the leader moves between harmless phases. */
  lemma QuietMove(ws: Waiters, syncing: bool, id: nat, w: Waiter)
    requires Elected(ws, syncing) && !Leader(ws, id) && !Leader(map[id := w], id)
    requires w.phase == Blocked ==> syncing
    ensures Elected(ws[id := w], syncing)
  {
    var ws' := ws[id := w];
    assert forall i :: Leader(ws', i) <==> Leader(ws, i);
    assert forall i :: i != id && In(ws', i, {Blocked}) ==> In(ws, i, {Blocked});
  }

  lemma MovePromised(ws: Waiters, store: Store, id: nat, w: Waiter)
    requires Promised(ws, store) && w.lsn <= store.appended
    requires w.phase == Returned(true) ==> w.lsn <= store.durable
    ensures Promised(ws[id := w], store)
  {
    var ws' := ws[id := w];
    assert forall i :: i != id && Acked(ws', i) ==> Acked(ws, i);
  }

  lemma BecomeLeader(ws: Waiters, id: nat)
    requires Elected(ws, false) && id in ws
    ensures Elected(ws[id := ws[id].(phase := Leading)], true)
  {
    var ws' := ws[id := ws[id].(phase := Leading)];
    assert Leader(ws', id);
    assert forall i :: i != id && Leader(ws', i) ==> Leader(ws, i);
  }

  lemma CheckKeeps(crc: Checksum, cfg: Config, s: State, id: nat)
    requires Protocol(s) && Enabled(cfg, s, Check(id))
    ensures Protocol(Apply(crc, cfg, s, Check(id)))
  {
    var w := s.waiters[id];
    var phase := if w.lsn <= s.flushed then Returned(true) else if s.syncing then Blocked else Leading;
    MovePromised(s.waiters, s.store, id, w.(phase := phase));
    if phase == Leading {
      BecomeLeader(s.waiters, id);
    } else {
      QuietMove(s.waiters, s.syncing, id, w.(phase := phase));
    }
  }

  lemma StaysLeader(ws: Waiters, syncing: bool, id: nat, ok: bool)
    requires Elected(ws, syncing) && Leader(ws, id)
    ensures Elected(ws[id := ws[id].(phase := Fsynced(ok))], syncing)
  {
    var ws' := ws[id := ws[id].(phase := Fsynced(ok))];
    assert forall i :: Leader(ws', i) <==> Leader(ws, i);
    assert forall i :: In(ws', i, {Blocked}) ==> In(ws, i, {Blocked});
  }

  lemma FsyncKeeps(crc: Checksum, cfg: Config, s: State, id: nat, d: Disk)
    requires Protocol(s) && Enabled(cfg, s, Fsync(id, d))
    ensures Protocol(Apply(crc, cfg, s, Fsync(id, d)))
  {
    var r := Sync(s.store, d);
    SyncOrdered(s.store, d);
    var w := s.waiters[id];
    if w.phase.Direct? {
      MovePromised(s.waiters, r.store, id, w.(phase := Returned(r.ok)));
      QuietMove(s.waiters, s.syncing, id, w.(phase := Returned(r.ok)));
    } else {
      MovePromised(s.waiters, r.store, id, w.(phase := Fsynced(r.ok)));
      StaysLeader(s.waiters, s.syncing, id, r.ok);
    }
  }

  /** The leader steps down and everybody who slept looks again. */
  lemma StepDown(ws: Waiters, syncing: bool, id: nat, w: Waiter)
    requires Elected(ws, syncing) && Leader(ws, id) && w.phase in {Checking, Returned(false)}
    ensures Elected(Woken(ws)[id := w], false)
  {
    var ws' := Woken(ws)[id := w];
    assert forall i :: i != id && Leader(ws', i) ==> Leader(ws, i);
    assert !Leader(ws', id);
    assert forall i :: !In(ws', i, {Blocked});
  }

  lemma PublishKeeps(crc: Checksum, cfg: Config, s: State, id: nat)
    requires Protocol(s) && Enabled(cfg, s, Publish(id))
    ensures Protocol(Apply(crc, cfg, s, Publish(id)))
  {
    var w := s.waiters[id];
    var phase := if !w.phase.ok && w.lsn > s.store.durable then Returned(false) else Checking;
    StepDown(s.waiters, s.syncing, id, w.(phase := phase));
    assert Promised(Woken(s.waiters), s.store) by {
      assert forall i :: Acked(Woken(s.waiters), i) ==> Acked(s.waiters, i);
    }
    MovePromised(Woken(s.waiters), s.store, id, w.(phase := phase));
  }

  lemma StepKeepsProtocol(crc: Checksum, cfg: Config, s: State, step: Step)
    requires Protocol(s) && Enabled(cfg, s, step)
    ensures Protocol(Apply(crc, cfg, s, step))
    ensures s.store.durable <= Apply(crc, cfg, s, step).store.durable
  {
    match step
    case Append(op, key, value, d) => AppendOrdered(crc, cfg.limits, s.store, Record(s.store.next, op, key, value), d);
    case Call(id, lsn) =>
      var w := Waiter(lsn, if cfg.grouped then Checking else Direct);
      QuietMove(s.waiters, s.syncing, id, w);
      MovePromised(s.waiters, s.store, id, w);
    case Check(id) => CheckKeeps(crc, cfg, s, id);
    case Fsync(id, d) =>
      SyncOrdered(s.store, d);
      FsyncKeeps(crc, cfg, s, id, d);
    case Publish(id) => PublishKeeps(crc, cfg, s, id);
    case Flush(d) => SyncOrdered(s.store, d);
    case Purge(c, k) =>
  }

  /** At most one fsync leader; flushed <= durable <= appended < next; nobody
      sleeps without a leader left to wake them; nil means durable. This holds
      in every run, whatever the disk does. */
  lemma {:induction false} RunKeepsProtocol(crc: Checksum, cfg: Config, r: Run)
    requires IsRun(crc, cfg, r)
    ensures Protocol(Final(r))
    decreases r
  {
    if r.Extend? {
      RunKeepsProtocol(crc, cfg, r.prefix);
      StepKeepsProtocol(crc, cfg, Final(r.prefix), r.step);
    }
  }

  // ---------------------------------------------------------------- acknowledged means durable

  /** The files hold the log from some purge point on, and purging took no
      more than a checkpoint allowed. */
  ghost predicate Holds(crc: Checksum, s: State, t: Trace) {
    Rep(crc, s.store, t) && t.log == s.log && Purged(t) <= s.checkpoint
  }

  lemma InitialHolds(crc: Checksum)
    ensures Holds(crc, Initial(), Beginning())
  {
    FreshRep(crc);
  }

  lemma StepHolds(crc: Checksum, cfg: Config, s: State, t: Trace, step: Step) returns (t': Trace)
    requires Holds(crc, s, t) && Enabled(cfg, s, step) && !cfg.tears
    ensures Holds(crc, Apply(crc, cfg, s, step), t')
  {
    t' := t;
    match step
    case Append(op, key, value, d) =>
      t' := AppendKeeps(crc, cfg.limits, s.store, t, Record(s.store.next, op, key, value), d);
    case Fsync(id, d) => SyncKeeps(crc, s.store, t, d);
    case Flush(d) => SyncKeeps(crc, s.store, t, d);
    case Purge(c, k) => t' := PurgeKeeps(crc, s.store, t, c, k);
    case _ =>
  }

  lemma {:induction false} RunHolds(crc: Checksum, cfg: Config, r: Run) returns (t: Trace)
    requires IsRun(crc, cfg, r) && !cfg.tears
    ensures Holds(crc, Final(r), t)
    decreases r
  {
    if r.Start? {
      InitialHolds(crc);
      t := Beginning();
    } else {
      t := RunHolds(crc, cfg, r.prefix);
      t := StepHolds(crc, cfg, Final(r.prefix), t, r.step);
    }
  }

  /** Replay gives the log from p up to m: numbered in order, missing at the
      front only what a checkpoint released, and reaching past every
      acknowledged number. */
  ghost predicate ReplaysTo(crc: Checksum, s: State, n: nat, p: nat, m: nat)
    requires n <= |s.store.active|
  {
    && p <= m <= |s.log| && p <= s.checkpoint && Numbered(s.log)
    && Replay(crc, Crash(s.store, n)) == s.log[p..m]
    && forall id :: Acked(s.waiters, id) ==> s.waiters[id].lsn <= m
  }

  ghost predicate Survives(crc: Checksum, s: State, n: nat)
    requires n <= |s.store.active|
  {
    exists p, m :: ReplaysTo(crc, s, n, p, m)
  }

  lemma AckedSurvives(crc: Checksum, cfg: Config, r: Run, n: nat)
    requires IsRun(crc, cfg, r) && !cfg.tears && CrashPoint(Final(r).store, n)
    ensures Survives(crc, Final(r), n)
  {
    var s := Final(r);
    RunKeepsProtocol(crc, cfg, r);
    var t := RunHolds(crc, cfg, r);
    var m := CrashReplay(crc, s.store, t, n);
    assert ReplaysTo(crc, s, n, Purged(t), m);
  }

  // ---------------------------------------------------------------- a torn write in the middle

  ghost predicate AlwaysSurvives(crc: Checksum, tears: bool) {
    forall cfg: Config, r: Run, n: nat ::
      cfg.tears == tears && IsRun(crc, cfg, r) && CrashPoint(Final(r).store, n) ==> Survives(crc, Final(r), n)
  }

  const GOOD: Disk := Disk(Wrote, Wrote, true, true, Opened)
  const TEARING: Config := Config(Limits(1000, 1), true, true)

  function First(): Record { Record(1, Put, [], []) }
  function Second(): Record { Record(2, Put, [], []) }

  /** One byte of the first record, then the retried buffer. */
  function TornFile(crc: Checksum): seq<byte> {
    Encode(crc, First())[..1] + (Encode(crc, First()) + Encode(crc, Second()))
  }

  lemma OversizedLength(crc: Checksum, data: seq<byte>)
    requires 8 <= |data| < 6400 && data[5] == 25
    ensures ReadAll(crc, data) == []
  {
    var size := data[4..8];
    assert size[1] == 25;
    assert FromLittleEndian(size) == size[0] + 256 * FromLittleEndian(size[1..]);
    assert FromLittleEndian(size[1..]) == size[1] + 256 * FromLittleEndian(size[1..][1..]);
  }

  /** The length is looked for one byte too early and comes out far too large. */
  lemma TornFileUnreadable(crc: Checksum)
    ensures |TornFile(crc)| == 51 && ReadAll(crc, TornFile(crc)) == []
  {
    var body := Body(First());
    BodyFields(First());
    assert body[..4] == LittleEndian(25, 4);
    assert body[0] == body[..4][0] == 25;
    assert TornFile(crc)[5] == Encode(crc, First())[4] == body[0];
    OversizedLength(crc, TornFile(crc));
  }

  const TORN_APPEND: Step := Append(Put, [], [], GOOD.(early := Failed(1)))
  const GOOD_APPEND: Step := Append(Put, [], [], GOOD)

  function TornOnce(crc: Checksum): State {
    var b := Encode(crc, First());
    State(Store([], b[..1], true, 0, b, 2, 1, 0), false, 0, map[], [First()], 0)
  }

  function TornTwice(crc: Checksum): State {
    State(Store([], TornFile(crc), true, 0, [], 3, 2, 0), false, 0, map[], [First(), Second()], 0)
  }

  lemma TornFlush(b: seq<byte>)
    requires |b| >= 1
    ensures WalStore.Flush(Store([], [], true, 0, b, 2, 1, 0), Failed(1))
         == Result(Store([], b[..1], true, 0, b, 2, 1, 0), false)
  {
    assert [] + b[..1] == b[..1];
  }

  lemma TornFirst(crc: Checksum)
    ensures Enabled(TEARING, Initial(), TORN_APPEND) && Apply(crc, TEARING, Initial(), TORN_APPEND) == TornOnce(crc)
  {
    OneByteLeft(crc, TEARING.limits, First(), TORN_APPEND.disk, Encode(crc, First()));
    assert [] + [First()] == [First()];
  }

  /** A write of the first record that fails after one byte ends the append. */
  lemma OneByteLeft(crc: Checksum, l: Limits, r: Record, d: Disk, b: seq<byte>)
    requires r.lsn == 1 && b == Encode(crc, r) && |b| >= l.writeBufferSize && |b| >= 1 && d.early == Failed(1)
    ensures WalStore.Append(crc, l, Fresh(), r, d).store == Store([], b[..1], true, 0, b, 2, 1, 0)
  {
    assert [] + b == b;
    TornFlush(b);
  }

  lemma TornSecond(crc: Checksum)
    ensures Enabled(TEARING, TornOnce(crc), GOOD_APPEND)
            && Apply(crc, TEARING, TornOnce(crc), GOOD_APPEND) == TornTwice(crc)
  {
    assert [First()] + [Second()] == [First(), Second()];
  }

  lemma TornAppends(crc: Checksum)
    ensures Enabled(TEARING, Initial(), TORN_APPEND) && Apply(crc, TEARING, Initial(), TORN_APPEND) == TornOnce(crc)
    ensures Enabled(TEARING, TornOnce(crc), GOOD_APPEND)
            && Apply(crc, TEARING, TornOnce(crc), GOOD_APPEND) == TornTwice(crc)
  {
    TornFirst(crc);
    TornSecond(crc);
  }

  function One(lsn: nat, phase: Phase): Waiters { map[0 := Waiter(lsn, phase)] }

  /** With everything flushed, one waiter gets the whole log acknowledged in five steps. */
  function AckStep(store: Store, k: nat): Step {
    match k
    case 0 => Call(0, store.appended)
    case 2 => Fsync(0, GOOD)
    case 3 => Publish(0)
    case _ => Check(0)
  }

  function AckState(store: Store, log: seq<Record>, k: nat): State {
    var n := store.appended;
    match k
    case 0 => State(store, false, 0, map[], log, 0)
    case 1 => State(store, false, 0, One(n, Checking), log, 0)
    case 2 => State(store, true, 0, One(n, Leading), log, 0)
    case 3 => State(MarkSynced(store), true, 0, One(n, Fsynced(true)), log, 0)
    case 4 => State(MarkSynced(store), false, n, One(n, Checking), log, 0)
    case _ => State(MarkSynced(store), false, n, One(n, Returned(true)), log, 0)
  }

  lemma AckSteps(crc: Checksum, cfg: Config, store: Store, log: seq<Record>, k: nat)
    requires cfg.grouped && store.open && store.buffer == [] && store.appended > 0 && k < 5
    ensures Enabled(cfg, AckState(store, log, k), AckStep(store, k))
    ensures Apply(crc, cfg, AckState(store, log, k), AckStep(store, k)) == AckState(store, log, k + 1)
  {
  }

  lemma {:induction false} AckRun(crc: Checksum, cfg: Config, r: Run, store: Store, log: seq<Record>,
                                  k: nat) returns (r': Run)
    requires IsRun(crc, cfg, r) && Final(r) == AckState(store, log, k) && k <= 5
    requires cfg.grouped && store.open && store.buffer == [] && store.appended > 0
    ensures IsRun(crc, cfg, r') && Final(r') == AckState(store, log, 5)
    decreases 5 - k
  {
    r' := r;
    if k < 5 {
      AckSteps(crc, cfg, store, log, k);
      r' := AckRun(crc, cfg, Extend(r, AckStep(store, k), AckState(store, log, k + 1)), store, log, k + 1);
    }
  }

  lemma NothingReplayed(crc: Checksum, s: State, n: nat, id: nat)
    requires n <= |s.store.active| && Replay(crc, Crash(s.store, n)) == []
    requires s.checkpoint == 0 && Acked(s.waiters, id) && s.waiters[id].lsn > 0
    ensures !Survives(crc, s, n)
  {
    forall p: nat, m: nat | p <= m <= |s.log| ensures |s.log[p..m]| == m - p {
    }
  }

  lemma ReplayOne(crc: Checksum, file: seq<byte>)
    requires ReadAll(crc, file) == []
    ensures Replay(crc, [] + [file]) == []
  {
    ReplayLast(crc, [], file);
  }

  /** After the torn write nothing is replayed. */
  lemma TornStoreUnreadable(crc: Checksum)
    ensures var s := MarkSynced(TornTwice(crc).store); CrashPoint(s, 51) && Replay(crc, Crash(s, 51)) == []
  {
    TornFileUnreadable(crc);
    var file := TornFile(crc);
    assert file[..51] == file;
    ReplayOne(crc, file);
  }

  lemma TornRun(crc: Checksum) returns (r: Run)
    ensures IsRun(crc, TEARING, r) && Final(r) == AckState(TornTwice(crc).store, [First(), Second()], 5)
  {
    TornAppends(crc);
    r := Extend(Extend(Start, TORN_APPEND, TornOnce(crc)), GOOD_APPEND, TornTwice(crc));
    r := AckRun(crc, TEARING, r, TornTwice(crc).store, [First(), Second()], 0);
  }

  lemma TornEnd(crc: Checksum)
    ensures var s := AckState(TornTwice(crc).store, [First(), Second()], 5);
            CrashPoint(s.store, 51) && !Survives(crc, s, 51)
  {
    var s := AckState(TornTwice(crc).store, [First(), Second()], 5);
    TornStoreUnreadable(crc);
    assert Acked(s.waiters, 0);
    NothingReplayed(crc, s, 51, 0);
  }

  /** A failed write that leaves one byte behind loses an acknowledged record,
      whatever the checksum. */
  lemma TornWriteLosesAck(crc: Checksum) returns (r: Run)
    ensures IsRun(crc, TEARING, r) && CrashPoint(Final(r).store, 51) && !Survives(crc, Final(r), 51)
  {
    r := TornRun(crc);
    TornEnd(crc);
  }

  /** Acknowledged means durable exactly when a failed write leaves nothing behind. */
  lemma SurvivesIff(crc: Checksum, tears: bool)
    ensures AlwaysSurvives(crc, tears) <==> !tears
  {
    if tears {
      var r := TornWriteLosesAck(crc);
    } else {
      forall cfg: Config, r: Run, n: nat | cfg.tears == tears && IsRun(crc, cfg, r) && CrashPoint(Final(r).store, n)
        ensures Survives(crc, Final(r), n)
      {
        AckedSurvives(crc, cfg, r, n);
      }
    }
  }

  // ---------------------------------------------------------------- one fsync serves everybody

  /** When a leader's fsync succeeds and is published, everybody who slept is
      awake, nobody leads, and each waiter for a record that was in the log by
      then returns without an error as soon as it looks. */
  lemma OneSyncServesAll(crc: Checksum, cfg: Config, s: State, id: nat, d: Disk, w: nat)
    requires Protocol(s) && Enabled(cfg, s, Fsync(id, d)) && s.waiters[id].phase == Leading && Sync(s.store, d).ok
    requires w in s.waiters && (w == id || s.waiters[w].phase == Blocked || s.waiters[w].phase == Checking)
    ensures var synced := Apply(crc, cfg, s, Fsync(id, d));
            && Enabled(cfg, synced, Publish(id))
            && var after := Apply(crc, cfg, synced, Publish(id));
               && !after.syncing && after.flushed == s.store.appended && Enabled(cfg, after, Check(w))
               && Acked(Apply(crc, cfg, after, Check(w)).waiters, w)
  {
    SyncOrdered(s.store, d);
    assert s.waiters[w].lsn <= s.store.appended;
  }

  /** Without grouping, a waiter makes its own fsync and is told its outcome. */
  lemma DirectSync(crc: Checksum, cfg: Config, s: State, id: nat, d: Disk)
    requires Protocol(s) && Enabled(cfg, s, Fsync(id, d)) && s.waiters[id].phase == Direct
    ensures Acked(Apply(crc, cfg, s, Fsync(id, d)).waiters, id) <==> Sync(s.store, d).ok
  {
  }

  // ---------------------------------------------------------------- the two modes

  /** Grouped waiters never sync for themselves; others never wait for anybody. */
  ghost predicate InMode(cfg: Config, w: Waiter) {
    w.phase.Returned? || (w.phase.Direct? <==> !cfg.grouped)
  }

  lemma {:induction false} ModeKept(crc: Checksum, cfg: Config, r: Run, id: nat)
    requires IsRun(crc, cfg, r) && id in Final(r).waiters
    ensures InMode(cfg, Final(r).waiters[id])
  {
    if r.Extend? {
      if id in Final(r.prefix).waiters {
        ModeKept(crc, cfg, r.prefix, id);
      }
      StepKeepsMode(crc, cfg, Final(r.prefix), r.step, id);
    }
  }

  lemma StepKeepsMode(crc: Checksum, cfg: Config, s: State, step: Step, id: nat)
    requires Enabled(cfg, s, step) && id in Apply(crc, cfg, s, step).waiters
    requires id in s.waiters ==> InMode(cfg, s.waiters[id])
    ensures InMode(cfg, Apply(crc, cfg, s, step).waiters[id])
  {
    match step {
      case Append(_, _, _, _) =>
      case Call(_, _) =>
      case Check(_) =>
      case Fsync(_, _) =>
      case Publish(_) =>
      case Flush(_) =>
      case Purge(_, _) =>
    }
  }

  /** Durable is exact: over every run without torn writes there is a crash after
      which replay ends with the last durable record. */
  lemma DurableIsExact(crc: Checksum, cfg: Config, r: Run)
    requires IsRun(crc, cfg, r) && !cfg.tears
    ensures var s := Final(r);
            && CrashPoint(s.store, s.store.synced)
            && exists p :: 0 <= p <= s.store.durable <= |s.log| && p <= s.checkpoint
                 && Replay(crc, Crash(s.store, s.store.synced)) == s.log[p..s.store.durable]
  {
    var t := RunHolds(crc, cfg, r);
    WorstCrash(crc, Final(r).store, t);
  }
}
