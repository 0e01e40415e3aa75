/** Reads that race with the single writer and the flusher, as interleaved steps.
    Memtables, immutable memtables and tables hold plain maps, as in the engine;
    the interval (lo, hi] of log positions beside each of them is bookkeeping
    for the proof and influences no step. */
module EngineReads {
  import opened Keys

  datatype Write = Write(key: Key, value: Key)

  /** A layer of data: the writes with log positions lo < p <= hi. */
  datatype Layer = Layer(data: map<Key, Key>, lo: nat, hi: nat)

  datatype Memtable = Memtable(layer: Layer, cleared: bool)

  datatype WriterAt =
    | WIdle
    | WAppended            // record in the WAL, not yet in the memtable
    | WAdded               // in the memtable; it may be full
    | WPushed              // snapshot queued, memtable still active
    | WSwapped(retired: nat) // new memtable active, the retired one not yet cleared

  datatype FlusherAt = FIdle | FFlushed | FRegistered | FPurged

  datatype Answer = NotFound | Found(value: Key)

  datatype ReaderAt =
    | RIdle
    | RBegun(key: Key, begin: nat)
    | RLoaded(key: Key, begin: nat, mem: nat)
    | RMissedMem(key: Key, begin: nat, q: nat, u: nat)
    | RSnapshot(key: Key, begin: nat, q: nat, u: nat, snapshot: seq<Layer>)
    | RMissedQueue(key: Key, begin: nat, s: nat, u: nat)
    | RDone(key: Key, begin: nat, answer: Answer)

  datatype State = State(log: seq<Write>, purged: nat, mems: map<nat, Memtable>, active: nat, queue: seq<Layer>,
                         tables: seq<Layer>, writer: WriterAt, flusher: FlusherAt, reader: ReaderAt)

  /** full says when a memtable has reached its size. */
  datatype Config = Config(tombstone: Key, maxQueue: nat, full: map<Key, Key> -> bool)

  // ---------------------------------------------------------------- lookups

  /** Memtables hide a tombstone, so that the search goes on in older layers. */
  function Get(c: Config, data: map<Key, Key>, k: Key): Answer {
    if k in data && data[k] != c.tombstone then Found(data[k]) else NotFound
  }

  /** Newest first: the last layer of the list is searched first. */
  function SearchQueue(c: Config, layers: seq<Layer>, k: Key): Answer {
    if layers == [] then NotFound
    else
      var a := Get(c, layers[|layers| - 1].data, k);
      if a.Found? then a else SearchQueue(c, layers[..|layers| - 1], k)
  }

  /** A table reports a tombstone, which ends the search. */
  function SearchTables(c: Config, layers: seq<Layer>, k: Key): Answer {
    if layers == [] then NotFound
    else
      var data := layers[|layers| - 1].data;
      if k in data then (if data[k] == c.tombstone then NotFound else Found(data[k]))
      else SearchTables(c, layers[..|layers| - 1], k)
  }

  // ---------------------------------------------------------------- steps

  datatype Step =
    | Append(w: Write) | Add | NotFull | Push | Swap(id: nat) | Clear
    | Flush | Register | Purge | Pop
    | Begin(key: Key) | Load | LookMem | Snapshot | LookQueue | LookTables

  /** Writes applied so far: all of the log, except a record not yet in the memtable. */
  function AppliedTo(log: seq<Write>, writer: WriterAt): nat {
    if writer == WAppended && |log| > 0 then |log| - 1 else |log|
  }

  function Applied(s: State): nat {
    AppliedTo(s.log, s.writer)
  }

  /** Where the layers end, if they begin at the given position. */
  function LayersEnd(layers: seq<Layer>, begin: nat): nat {
    if layers == [] then begin else layers[|layers| - 1].hi
  }

  function TablesEnd(s: State): nat {
    LayersEnd(s.tables, 0)
  }

  function QueueEnd(s: State): nat {
    LayersEnd(s.queue, TablesEnd(s))
  }

  ghost predicate Next(c: Config, s: State, t: State, step: Step) {
    && s.active in s.mems
    && match step
       // the single writer
       case Append(w) =>
         s.writer == WIdle && t == s.(log := s.log + [w], writer := WAppended)
       case Add =>
         && s.writer == WAppended && s.log != []
         && var w, m := s.log[|s.log| - 1], s.mems[s.active];
            var data := m.layer.data[w.key := w.value];
            t == s.(mems := s.mems[s.active := m.(layer := Layer(data, m.layer.lo, m.layer.hi + 1))], writer := WAdded)
       case NotFull =>
         s.writer == WAdded && !c.full(s.mems[s.active].layer.data) && t == s.(writer := WIdle)
       case Push =>
         s.writer == WAdded && c.full(s.mems[s.active].layer.data) && |s.queue| < c.maxQueue
         && t == s.(queue := s.queue + [s.mems[s.active].layer], writer := WPushed)
       case Swap(id) =>
         s.writer == WPushed && id !in s.mems
         && t == s.(mems := s.mems[id := Memtable(Layer(map[], |s.log|, |s.log|), false)], active := id,
                    writer := WSwapped(s.active))
       case Clear =>
         s.writer.WSwapped? && s.writer.retired in s.mems
         && var m := s.mems[s.writer.retired];
            t == s.(mems := s.mems[s.writer.retired := Memtable(Layer(map[], m.layer.lo, m.layer.hi), true)],
                    writer := WIdle)
       // the flusher
       case Flush =>
         s.flusher == FIdle && s.queue != [] && t == s.(flusher := FFlushed)
       case Register =>
         s.flusher == FFlushed && s.queue != [] && t == s.(tables := s.tables + [s.queue[0]], flusher := FRegistered)
       case Purge =>
         s.flusher == FRegistered && s.queue != []
         && t == s.(purged := if s.queue[0].hi > s.purged then s.queue[0].hi else s.purged, flusher := FPurged)
       case Pop =>
         s.flusher == FPurged && s.queue != [] && t == s.(queue := s.queue[1..], flusher := FIdle)
       // a reader
       case Begin(k) =>
         (s.reader.RIdle? || s.reader.RDone?) && t == s.(reader := RBegun(k, Applied(s)))
       case Load =>
         s.reader.RBegun? && t == s.(reader := RLoaded(s.reader.key, s.reader.begin, s.active))
       case LookMem =>
         && s.reader.RLoaded? && s.reader.mem in s.mems
         && var m, k := s.mems[s.reader.mem], s.reader.key;
            var a := Get(c, m.layer.data, k);
            t == s.(reader := if a.Found? then RDone(k, s.reader.begin, a)
                              else RMissedMem(k, s.reader.begin, if m.cleared then m.layer.hi else m.layer.lo,
                                              m.layer.hi))
       case Snapshot =>
         s.reader.RMissedMem?
         && t == s.(reader := RSnapshot(s.reader.key, s.reader.begin, s.reader.q, s.reader.u, s.queue))
       case LookQueue =>
         && s.reader.RSnapshot?
         && var snap, k := s.reader.snapshot, s.reader.key;
            var a := SearchQueue(c, snap, k);
            t == s.(reader := if a.Found? then RDone(k, s.reader.begin, a)
                              else if snap == [] then RMissedQueue(k, s.reader.begin, s.reader.q, s.reader.u)
                              else RMissedQueue(k, s.reader.begin, snap[0].lo, Max(snap[|snap| - 1].hi, s.reader.u)))
       case LookTables =>
         s.reader.RMissedQueue?
         && t == s.(reader := RDone(s.reader.key, s.reader.begin, SearchTables(c, s.tables, s.reader.key)))
  }

  function Max(a: nat, b: nat): nat { if a > b then a else b }

  // ---------------------------------------------------------------- what a key's value is

  /** The value of k after the first u writes. */
  function ValueAt(log: seq<Write>, k: Key, u: nat): Answer
    requires u <= |log|
  {
    if u == 0 then NotFound
    else if log[u - 1].key == k then Found(log[u - 1].value)
    else ValueAt(log, k, u - 1)
  }

  /** What a reader should see: a tombstone counts as absence. */
  function Seen(c: Config, log: seq<Write>, k: Key, u: nat): Answer
    requires u <= |log|
  {
    var a := ValueAt(log, k, u);
    if a == Found(c.tombstone) then NotFound else a
  }

  /** The last value per key among the writes at positions lo < p <= hi. */
  function Contents(log: seq<Write>, lo: nat, hi: nat): map<Key, Key>
    requires lo <= hi <= |log|
    decreases hi
  {
    if lo == hi then map[] else Contents(log, lo, hi - 1)[log[hi - 1].key := log[hi - 1].value]
  }

  /** A layer holds the current value of k at its end, or k was not written in it. */
  lemma {:induction false} ContentsFacts(log: seq<Write>, lo: nat, hi: nat, k: Key)
    requires lo <= hi <= |log|
    ensures if k in Contents(log, lo, hi) then ValueAt(log, k, hi) == Found(Contents(log, lo, hi)[k])
            else forall u: nat :: lo <= u <= hi ==> ValueAt(log, k, u) == ValueAt(log, k, hi)
    decreases hi
  {
    if lo < hi {
      ContentsFacts(log, lo, hi - 1, k);
    }
  }

  lemma {:induction false} ValueIsWritten(log: seq<Write>, k: Key, u: nat) returns (i: nat)
    requires u <= |log| && ValueAt(log, k, u).Found?
    ensures i < u && log[i].key == k && ValueAt(log, k, u) == Found(log[i].value)
    ensures forall j :: i < j < u ==> log[j].key != k
  {
    if log[u - 1].key == k {
      i := u - 1;
    } else {
      i := ValueIsWritten(log, k, u - 1);
    }
  }

  // What a log says about its beginning does not depend on how it goes on.

  lemma {:induction false} ContentsPrefix(p: seq<Write>, log: seq<Write>, lo: nat, hi: nat)
    requires p <= log && lo <= hi <= |p|
    ensures Contents(log, lo, hi) == Contents(p, lo, hi)
    decreases hi
  {
    if lo < hi {
      ContentsPrefix(p, log, lo, hi - 1);
    }
  }

  lemma {:induction false} ValuePrefix(p: seq<Write>, log: seq<Write>, k: Key, u: nat)
    requires p <= log && u <= |p|
    ensures ValueAt(log, k, u) == ValueAt(p, k, u)
  {
    if u > 0 {
      ValuePrefix(p, log, k, u - 1);
    }
  }

  // ---------------------------------------------------------------- where memtables are sealed

  /** Where the memtable begins that is active after the first n writes. */
  function Base(c: Config, log: seq<Write>, n: nat): (lo: nat)
    requires n <= |log|
    ensures lo <= n
  {
    if n == 0 then 0
    else
      var lo := Base(c, log, n - 1);
      if c.full(Contents(log, lo, n)) then n else lo
  }

  /** After the first b writes the memtable is empty. */
  ghost predicate SealPoint(c: Config, log: seq<Write>, b: int) {
    0 <= b <= |log| && Base(c, log, b) == b
  }

  lemma {:induction false} BasePrefix(c: Config, p: seq<Write>, log: seq<Write>, n: nat)
    requires p <= log && n <= |p|
    ensures Base(c, log, n) == Base(c, p, n)
  {
    if n > 0 {
      BasePrefix(c, p, log, n - 1);
      ContentsPrefix(p, log, Base(c, p, n - 1), n);
    }
  }

  /** A memtable does not begin before any seal point behind it. */
  lemma {:induction false} BaseAbove(c: Config, log: seq<Write>, b: nat, n: nat)
    requires SealPoint(c, log, b) && b <= n <= |log|
    ensures b <= Base(c, log, n)
  {
    if b < n {
      BaseAbove(c, log, b, n - 1);
    }
  }

  /** At the seal points from lo to hi, k looks as it does at hi. */
  ghost predicate Steady(c: Config, log: seq<Write>, k: Key, lo: nat, hi: nat) {
    hi <= |log| && forall b: nat :: lo <= b <= hi && SealPoint(c, log, b) ==> Seen(c, log, k, b) == Seen(c, log, k, hi)
  }

  /** k is not deleted any more once a memtable has been sealed while k had a value. */
  ghost predicate DeletedInTime(c: Config, log: seq<Write>, k: Key) {
    forall b: nat, j: nat :: SealPoint(c, log, b) && b <= j < |log| && log[j] == Write(k, c.tombstone) ==>
      Seen(c, log, k, b) == NotFound
  }

  // ---------------------------------------------------------------- the invariant

  ghost predicate Holds(log: seq<Write>, l: Layer) {
    l.lo <= l.hi <= |log| && l.data == Contents(log, l.lo, l.hi)
  }

  ghost predicate LayerOk(c: Config, log: seq<Write>, l: Layer) {
    Holds(log, l) && SealPoint(c, log, l.lo) && SealPoint(c, log, l.hi)
  }

  /** Each layer continues where the one before it ends. */
  ghost predicate Contiguous(layers: seq<Layer>) {
    forall i, j :: 0 <= i < j < |layers| && j == i + 1 ==> layers[j].lo == layers[i].hi
  }

  ghost predicate LayersOk(c: Config, log: seq<Write>, layers: seq<Layer>) {
    Contiguous(layers) && forall i :: 0 <= i < |layers| ==> LayerOk(c, log, layers[i])
  }

  ghost predicate TablesOk(c: Config, log: seq<Write>, tables: seq<Layer>, purged: nat) {
    && LayersOk(c, log, tables) && (tables != [] ==> tables[0].lo == 0)
    && purged <= LayersEnd(tables, 0)
  }

  /** The queue continues the tables; between registration and removal its front is also the last table. */
  ghost predicate QueueOk(c: Config, log: seq<Write>, tables: seq<Layer>, queue: seq<Layer>, flusher: FlusherAt) {
    && LayersOk(c, log, queue)
    && (flusher.FIdle? ==> (queue != [] ==> queue[0].lo == LayersEnd(tables, 0)))
    && (flusher.FFlushed? ==> queue != [] && queue[0].lo == LayersEnd(tables, 0))
    && (flusher.FRegistered? || flusher.FPurged? ==>
          queue != [] && tables != [] && queue[0] == tables[|tables| - 1])
  }

  /** The writes that have been dealt with, sealing included. */
  function SettledTo(log: seq<Write>, writer: WriterAt): nat {
    if (writer == WAppended || writer == WAdded || writer == WPushed) && |log| > 0 then |log| - 1 else |log|
  }

  /** The active memtable m continues the queue. */
  ghost predicate ActiveOk(c: Config, log: seq<Write>, m: Memtable, writer: WriterAt, queueEnd: nat) {
    && !m.cleared && Holds(log, m.layer) && m.layer.hi == AppliedTo(log, writer)
    && m.layer.lo == Base(c, log, SettledTo(log, writer))
    && (writer == WAppended || writer == WAdded ==> log != [])
    && (if writer == WPushed then queueEnd == |log| else m.layer.lo == queueEnd)
    && (writer == WPushed || writer.WSwapped? ==> SealPoint(c, log, |log|))
  }

  /** What has left the active place is in the queue or in a table. */
  ghost predicate MemOk(c: Config, log: seq<Write>, m: Memtable, active: bool, queueEnd: nat) {
    && m.layer.lo <= m.layer.hi <= |log| && m.layer.lo <= queueEnd && SealPoint(c, log, m.layer.lo)
    && (if m.cleared then m.layer.data == map[] else m.layer.data == Contents(log, m.layer.lo, m.layer.hi))
    && (!active ==> m.layer.hi <= queueEnd)
  }

  ghost predicate MemsOk(c: Config, log: seq<Write>, mems: map<nat, Memtable>, active: nat, queueEnd: nat) {
    forall id :: id in mems ==> MemOk(c, log, mems[id], id == active, queueEnd)
  }

  /** The answer is the value k had at some moment since the read began. */
  ghost predicate Current(c: Config, log: seq<Write>, k: Key, begin: nat, now: nat, a: Answer) {
    exists u: nat :: begin <= u <= now && u <= |log| && a == Seen(c, log, k, u)
  }

  ghost predicate ReaderOk(c: Config, log: seq<Write>, mems: map<nat, Memtable>, now: nat, queueEnd: nat,
                           tablesEnd: nat,
                           reader: ReaderAt) {
    match reader
    case RIdle => true
    case RBegun(_, begin) => begin <= now
    case RLoaded(_, begin, mem) => mem in mems && begin <= mems[mem].layer.hi
    case RMissedMem(k, begin, q, u) =>
      begin <= u <= now && q <= u && q <= queueEnd && (DeletedInTime(c, log, k) ==> Steady(c, log, k, q, u))
    case RSnapshot(k, begin, q, u, snap) =>
      && begin <= u <= now && q <= u && LayersOk(c, log, snap)
      && (DeletedInTime(c, log, k) ==> Steady(c, log, k, q, u))
      && (if snap == [] then q <= tablesEnd else snap[0].lo <= tablesEnd && q <= snap[|snap| - 1].hi <= now)
    case RMissedQueue(k, begin, lo, u) =>
      begin <= u <= now && lo <= tablesEnd && (DeletedInTime(c, log, k) ==> Steady(c, log, k, lo, u))
    case RDone(k, begin, a) =>
      DeletedInTime(c, log, k) ==> Current(c, log, k, begin, now, a)
  }

  ghost predicate StoreInv(c: Config, s: State) {
    && TablesOk(c, s.log, s.tables, s.purged)
    && QueueOk(c, s.log, s.tables, s.queue, s.flusher)
    && s.active in s.mems && MemsOk(c, s.log, s.mems, s.active, QueueEnd(s))
    && ActiveOk(c, s.log, s.mems[s.active], s.writer, QueueEnd(s))
    && (s.writer.WSwapped? ==> s.writer.retired in s.mems && s.writer.retired != s.active)
  }

  ghost predicate ReaderInv(c: Config, s: State) {
    ReaderOk(c, s.log, s.mems, Applied(s), QueueEnd(s), TablesEnd(s), s.reader)
  }

  ghost predicate Inv(c: Config, s: State) {
    StoreInv(c, s) && ReaderInv(c, s)
  }

  // ---------------------------------------------------------------- searching contiguous layers

  lemma {:induction false} ContiguousBounds(c: Config, log: seq<Write>, layers: seq<Layer>)
    requires LayersOk(c, log, layers) && layers != []
    ensures layers[0].lo <= layers[|layers| - 1].lo <= layers[|layers| - 1].hi
  {
    if |layers| > 1 {
      var rest := layers[..|layers| - 1];
      assert LayersOk(c, log, rest);
      ContiguousBounds(c, log, rest);
      assert layers[|layers| - 1].lo == layers[|layers| - 2].hi;
    }
  }

  /** A tombstone that is in time hides nothing that was sealed. */
  lemma TombstoneIsSteady(c: Config, log: seq<Write>, k: Key, hi: nat)
    requires hi <= |log| && DeletedInTime(c, log, k) && ValueAt(log, k, hi) == Found(c.tombstone)
    ensures Steady(c, log, k, 0, hi)
  {
    var j := ValueIsWritten(log, k, hi);
    forall b: nat | b <= hi && SealPoint(c, log, b) ensures Seen(c, log, k, b) == NotFound {
      if b > j {
        ValueUntouched(log, k, j + 1, b, hi);
      }
    }
  }

  lemma {:induction false} ValueUntouched(log: seq<Write>, k: Key, lo: nat, b: nat, hi: nat)
    requires lo <= b <= hi <= |log| && forall j :: lo <= j < hi ==> log[j].key != k
    ensures ValueAt(log, k, b) == ValueAt(log, k, hi)
  {
    if b < hi {
      ValueUntouched(log, k, lo, b, hi - 1);
    }
  }

  /** A memtable lookup shows the key at the end of the layer, or there was nothing new to see in it. */
  lemma GetFacts(c: Config, log: seq<Write>, l: Layer, k: Key)
    requires Holds(log, l) && DeletedInTime(c, log, k)
    ensures var a := Get(c, l.data, k); if a.Found? then a == Seen(c, log, k, l.hi) else Steady(c, log, k, l.lo, l.hi)
  {
    ContentsFacts(log, l.lo, l.hi, k);
    if k in l.data && l.data[k] == c.tombstone {
      TombstoneIsSteady(c, log, k, l.hi);
    }
  }

  lemma SteadyJoins(c: Config, log: seq<Write>, k: Key, lo: nat, e: nat, q: nat, u: nat)
    requires Steady(c, log, k, lo, e) && Steady(c, log, k, q, u) && q <= e && SealPoint(c, log, e)
    ensures Steady(c, log, k, lo, if e > u then e else u)
  {
    if e <= u {
      assert Seen(c, log, k, e) == Seen(c, log, k, u);
    }
  }

  /** Newest first shows the key at the end of the layers, or there was nothing new to see in them. */
  lemma {:induction false} SearchQueueFacts(c: Config, log: seq<Write>, layers: seq<Layer>, k: Key)
    requires LayersOk(c, log, layers) && DeletedInTime(c, log, k) && layers != []
    ensures var a, e := SearchQueue(c, layers, k), layers[|layers| - 1].hi;
            e <= |log| && if a.Found? then a == Seen(c, log, k, e) else Steady(c, log, k, layers[0].lo, e)
  {
    var last := layers[|layers| - 1];
    assert LayerOk(c, log, last);
    GetFacts(c, log, last, k);
    if Get(c, last.data, k).NotFound? && |layers| > 1 {
      var rest := layers[..|layers| - 1];
      assert LayersOk(c, log, rest);
      SearchQueueFacts(c, log, rest, k);
      assert last.lo == rest[|rest| - 1].hi;
      if SearchQueue(c, rest, k).NotFound? {
        SteadyJoins(c, log, k, layers[0].lo, last.lo, last.lo, last.hi);
      } else {
        assert Seen(c, log, k, last.lo) == Seen(c, log, k, last.hi);
      }
    }
  }

  lemma {:induction false} SearchTablesFacts(c: Config, log: seq<Write>, layers: seq<Layer>, k: Key)
    requires LayersOk(c, log, layers) && (layers != [] ==> layers[0].lo == 0)
    ensures var end := if layers == [] then 0 else layers[|layers| - 1].hi;
            end <= |log| && SearchTables(c, layers, k) == Seen(c, log, k, end)
  {
    if layers != [] {
      var last := layers[|layers| - 1];
      assert LayerOk(c, log, last);
      ContentsFacts(log, last.lo, last.hi, k);
      if k !in last.data {
        var rest := layers[..|layers| - 1];
        assert LayersOk(c, log, rest);
        SearchTablesFacts(c, log, rest, k);
        assert |layers| > 1 ==> last.lo == rest[|rest| - 1].hi;
        assert ValueAt(log, k, last.lo) == ValueAt(log, k, last.hi);
      }
    }
  }

  // ---------------------------------------------------------------- steps of the writer

  lemma SealPrefix(c: Config, p: seq<Write>, log: seq<Write>, b: nat)
    requires p <= log && b <= |p|
    ensures SealPoint(c, log, b) <==> SealPoint(c, p, b)
  {
    BasePrefix(c, p, log, b);
  }

  lemma LayerStable(c: Config, p: seq<Write>, log: seq<Write>, l: Layer)
    requires p <= log && LayerOk(c, p, l)
    ensures LayerOk(c, log, l)
  {
    ContentsPrefix(p, log, l.lo, l.hi);
    SealPrefix(c, p, log, l.lo);
    SealPrefix(c, p, log, l.hi);
  }

  lemma LayersStable(c: Config, p: seq<Write>, log: seq<Write>, layers: seq<Layer>)
    requires p <= log && LayersOk(c, p, layers)
    ensures LayersOk(c, log, layers)
  {
    forall i | 0 <= i < |layers| ensures LayerOk(c, log, layers[i]) {
      LayerStable(c, p, log, layers[i]);
    }
  }

  lemma CurrentStable(c: Config, p: seq<Write>, log: seq<Write>, k: Key, begin: nat, now: nat, a: Answer)
    requires p <= log && Current(c, p, k, begin, now, a)
    ensures Current(c, log, k, begin, now, a)
  {
    var u: nat :| begin <= u <= now && u <= |p| && a == Seen(c, p, k, u);
    ValuePrefix(p, log, k, u);
    assert a == Seen(c, log, k, u);
  }

  lemma SteadyStable(c: Config, p: seq<Write>, log: seq<Write>, k: Key, lo: nat, hi: nat)
    requires p <= log && Steady(c, p, k, lo, hi)
    ensures Steady(c, log, k, lo, hi)
  {
    ValuePrefix(p, log, k, hi);
    forall b: nat | lo <= b <= hi && SealPoint(c, log, b) ensures Seen(c, log, k, b) == Seen(c, log, k, hi) {
      SealPrefix(c, p, log, b);
      ValuePrefix(p, log, k, b);
    }
  }

  lemma DeletedInTimePrefix(c: Config, p: seq<Write>, log: seq<Write>, k: Key)
    requires p <= log && DeletedInTime(c, log, k)
    ensures DeletedInTime(c, p, k)
  {
    forall b: nat, j: nat | SealPoint(c, p, b) && b <= j < |p| && p[j] == Write(k, c.tombstone)
      ensures Seen(c, p, k, b) == NotFound
    {
      SealPrefix(c, p, log, b);
      ValuePrefix(p, log, k, b);
      assert log[j] == p[j];
    }
  }

  lemma ReaderSurvivesAppend(c: Config, p: seq<Write>, log: seq<Write>, mems: map<nat, Memtable>, now: nat,
                            queueEnd: nat, tablesEnd: nat, reader: ReaderAt)
    requires p <= log && ReaderOk(c, p, mems, now, queueEnd, tablesEnd, reader)
    ensures ReaderOk(c, log, mems, now, queueEnd, tablesEnd, reader)
  {
    match reader
    case RSnapshot(k, begin, q, u, snap) =>
      LayersStable(c, p, log, snap);
      if DeletedInTime(c, log, k) {
        DeletedInTimePrefix(c, p, log, k);
        SteadyStable(c, p, log, k, q, u);
      }
    case RMissedMem(k, begin, q, u) =>
      if DeletedInTime(c, log, k) {
        DeletedInTimePrefix(c, p, log, k);
        SteadyStable(c, p, log, k, q, u);
      }
    case RMissedQueue(k, begin, lo, u) =>
      if DeletedInTime(c, log, k) {
        DeletedInTimePrefix(c, p, log, k);
        SteadyStable(c, p, log, k, lo, u);
      }
    case RDone(k, begin, a) =>
      if DeletedInTime(c, log, k) {
        DeletedInTimePrefix(c, p, log, k);
        CurrentStable(c, p, log, k, begin, now, a);
      }
    case _ =>
  }

  lemma MemsStable(c: Config, p: seq<Write>, log: seq<Write>, mems: map<nat, Memtable>, active: nat, queueEnd: nat)
    requires p <= log && MemsOk(c, p, mems, active, queueEnd)
    ensures MemsOk(c, log, mems, active, queueEnd)
  {
    forall id | id in mems ensures MemOk(c, log, mems[id], id == active, queueEnd) {
      assert MemOk(c, p, mems[id], id == active, queueEnd);
      ContentsPrefix(p, log, mems[id].layer.lo, mems[id].layer.hi);
      SealPrefix(c, p, log, mems[id].layer.lo);
    }
  }

  lemma ActiveStable(c: Config, log: seq<Write>, w: Write, m: Memtable, queueEnd: nat)
    requires ActiveOk(c, log, m, WIdle, queueEnd)
    ensures ActiveOk(c, log + [w], m, WAppended, queueEnd)
  {
    assert log <= log + [w];
    BasePrefix(c, log, log + [w], |log|);
    ContentsPrefix(log, log + [w], m.layer.lo, m.layer.hi);
  }

  lemma AppendKeepsStore(c: Config, s: State, t: State, w: Write)
    requires StoreInv(c, s) && Next(c, s, t, Append(w))
    ensures StoreInv(c, t)
  {
    assert s.log <= t.log;
    LayersStable(c, s.log, t.log, s.tables);
    LayersStable(c, s.log, t.log, s.queue);
    MemsStable(c, s.log, t.log, s.mems, s.active, QueueEnd(s));
    ActiveStable(c, s.log, w, s.mems[s.active], QueueEnd(s));
  }

  lemma AppendKeepsReader(c: Config, s: State, t: State, w: Write)
    requires ReaderInv(c, s) && Next(c, s, t, Append(w))
    ensures ReaderInv(c, t)
  {
    assert s.log <= t.log;
    ReaderSurvivesAppend(c, s.log, t.log, s.mems, Applied(s), QueueEnd(s), TablesEnd(s), s.reader);
  }

  /** From s to t the current moment has moved forward. */
  ghost predicate Progresses(s: State, t: State) {
    && t.reader == s.reader && t.log == s.log
    && Applied(s) <= Applied(t) && QueueEnd(s) <= QueueEnd(t) && TablesEnd(s) <= TablesEnd(t)
    && forall id :: id in s.mems ==> id in t.mems && t.mems[id].layer.hi >= s.mems[id].layer.hi
  }

  /** Progress does not hurt a reader. */
  lemma ReaderSurvivesProgress(c: Config, s: State, t: State)
    requires ReaderInv(c, s) && Progresses(s, t)
    ensures ReaderInv(c, t)
  {
    match s.reader
    case RDone(k, begin, a) =>
      if DeletedInTime(c, t.log, k) {
        var u: nat :| begin <= u <= Applied(s) && u <= |s.log| && a == Seen(c, s.log, k, u);
      }
    case _ =>
  }

  /** One memtable is replaced or added, and the queue does not get shorter. */
  lemma MemsUpdated(c: Config, log: seq<Write>, mems: map<nat, Memtable>, active: nat, end: nat,
                    id: nat, m: Memtable, active': nat, end': nat)
    requires MemsOk(c, log, mems, active, end) && end <= end' && MemOk(c, log, m, id == active', end')
    requires active' == active || (active' == id && (active in mems ==> mems[active].layer.hi <= end'))
    ensures MemsOk(c, log, mems[id := m], active', end')
  {
    var all := mems[id := m];
    forall x | x in all ensures MemOk(c, log, all[x], x == active', end') {
      if x != id {
        assert MemOk(c, log, mems[x], x == active, end);
      }
    }
  }

  lemma AddedOk(c: Config, log: seq<Write>, m: Memtable, queueEnd: nat)
    requires ActiveOk(c, log, m, WAppended, queueEnd) && MemOk(c, log, m, true, queueEnd)
    ensures var w := log[|log| - 1];
            var n := m.(layer := Layer(m.layer.data[w.key := w.value], m.layer.lo, m.layer.hi + 1));
            ActiveOk(c, log, n, WAdded, queueEnd) && MemOk(c, log, n, true, queueEnd)
  {
  }

  lemma AddKeepsStore(c: Config, s: State, t: State)
    requires StoreInv(c, s) && Next(c, s, t, Add)
    ensures StoreInv(c, t) && Progresses(s, t)
  {
    AddedOk(c, s.log, s.mems[s.active], QueueEnd(s));
    MemsUpdated(c, s.log, s.mems, s.active, QueueEnd(s), s.active, t.mems[s.active], s.active, QueueEnd(s));
  }

  lemma NotFullKeepsStore(c: Config, s: State, t: State)
    requires StoreInv(c, s) && Next(c, s, t, NotFull)
    ensures StoreInv(c, t) && Progresses(s, t)
  {
  }

  lemma LayersGrow(c: Config, log: seq<Write>, layers: seq<Layer>, l: Layer)
    requires LayersOk(c, log, layers) && LayerOk(c, log, l) && (layers != [] ==> l.lo == layers[|layers| - 1].hi)
    ensures LayersOk(c, log, layers + [l])
  {
  }

  lemma PushedOk(c: Config, log: seq<Write>, m: Memtable, queueEnd: nat)
    requires ActiveOk(c, log, m, WAdded, queueEnd) && MemOk(c, log, m, true, queueEnd) && c.full(m.layer.data)
    ensures LayerOk(c, log, m.layer) && ActiveOk(c, log, m, WPushed, |log|) && m.layer.lo == queueEnd <= |log|
  {
  }

  lemma PushKeepsStore(c: Config, s: State, t: State)
    requires StoreInv(c, s) && Next(c, s, t, Push)
    ensures StoreInv(c, t) && Progresses(s, t)
  {
    var m := s.mems[s.active];
    assert MemOk(c, s.log, m, true, QueueEnd(s));
    PushedOk(c, s.log, m, QueueEnd(s));
    LayersGrow(c, s.log, s.queue, m.layer);
    MemsUpdated(c, s.log, s.mems, s.active, QueueEnd(s), s.active, m, s.active, QueueEnd(t));
    assert s.mems[s.active := m] == s.mems;
  }

  lemma FreshOk(c: Config, log: seq<Write>, retired: nat, queueEnd: nat)
    requires SealPoint(c, log, |log|) && queueEnd == |log|
    ensures var m := Memtable(Layer(map[], |log|, |log|), false);
            MemOk(c, log, m, true, queueEnd) && ActiveOk(c, log, m, WSwapped(retired), queueEnd)
  {
  }

  lemma SwapKeepsStore(c: Config, s: State, t: State, id: nat)
    requires StoreInv(c, s) && Next(c, s, t, Swap(id))
    ensures StoreInv(c, t) && Progresses(s, t)
  {
    FreshOk(c, s.log, s.active, QueueEnd(s));
    assert s.mems[s.active].layer.hi <= QueueEnd(t);
    MemsUpdated(c, s.log, s.mems, s.active, QueueEnd(s), id, t.mems[id], id, QueueEnd(t));
  }

  lemma ClearKeepsStore(c: Config, s: State, t: State)
    requires StoreInv(c, s) && Next(c, s, t, Clear)
    ensures StoreInv(c, t) && Progresses(s, t)
  {
    var id := s.writer.retired;
    assert MemOk(c, s.log, s.mems[id], false, QueueEnd(s));
    MemsUpdated(c, s.log, s.mems, s.active, QueueEnd(s), id, t.mems[id], s.active, QueueEnd(t));
  }

  // ---------------------------------------------------------------- steps of the flusher

  lemma FlushKeepsStore(c: Config, s: State, t: State)
    requires StoreInv(c, s) && Next(c, s, t, Flush)
    ensures StoreInv(c, t) && Progresses(s, t)
  {
  }

  lemma RegisterKeepsStore(c: Config, s: State, t: State)
    requires StoreInv(c, s) && Next(c, s, t, Register)
    ensures StoreInv(c, t) && Progresses(s, t)
  {
    assert LayerOk(c, s.log, s.queue[0]);
    LayersGrow(c, s.log, s.tables, s.queue[0]);
  }

  lemma PurgeKeepsStore(c: Config, s: State, t: State)
    requires StoreInv(c, s) && Next(c, s, t, Purge)
    ensures StoreInv(c, t) && Progresses(s, t)
  {
  }

  lemma LayersShrink(c: Config, log: seq<Write>, layers: seq<Layer>)
    requires LayersOk(c, log, layers) && layers != []
    ensures LayersOk(c, log, layers[1..]) && (|layers| > 1 ==> layers[1..][0].lo == layers[0].hi)
    ensures forall begin :: LayersEnd(layers[1..], layers[0].hi) == LayersEnd(layers, begin)
  {
  }

  lemma PopKeepsStore(c: Config, s: State, t: State)
    requires StoreInv(c, s) && Next(c, s, t, Pop)
    ensures StoreInv(c, t) && Progresses(s, t)
  {
    LayersShrink(c, s.log, s.queue);
    assert QueueEnd(t) == QueueEnd(s);
  }

  // ---------------------------------------------------------------- steps of the reader

  /** Tables end before the queue does, and the queue before the present. */
  lemma EndsOrdered(c: Config, s: State)
    requires StoreInv(c, s)
    ensures TablesEnd(s) <= QueueEnd(s) <= Applied(s)
  {
    if s.queue != [] {
      ContiguousBounds(c, s.log, s.queue);
      assert LayerOk(c, s.log, s.queue[0]);
      if |s.queue| > 1 {
        LayersShrink(c, s.log, s.queue);
        ContiguousBounds(c, s.log, s.queue[1..]);
      }
    }
  }

  lemma BeginKeepsReader(c: Config, s: State, t: State, k: Key)
    requires Inv(c, s) && Next(c, s, t, Begin(k))
    ensures ReaderInv(c, t)
  {
  }

  lemma LoadKeepsReader(c: Config, s: State, t: State)
    requires Inv(c, s) && Next(c, s, t, Load)
    ensures ReaderInv(c, t)
  {
  }

  /** What a lookup in memtable m leaves behind. */
  lemma LookedUp(c: Config, log: seq<Write>, m: Memtable, active: bool, queueEnd: nat, k: Key)
    requires MemOk(c, log, m, active, queueEnd) && DeletedInTime(c, log, k)
    ensures var a := Get(c, m.layer.data, k);
            if a.Found? then a == Seen(c, log, k, m.layer.hi)
            else Steady(c, log, k, if m.cleared then m.layer.hi else m.layer.lo, m.layer.hi)
  {
    if !m.cleared {
      GetFacts(c, log, m.layer, k);
    }
  }

  lemma LookMemKeepsReader(c: Config, s: State, t: State)
    requires Inv(c, s) && Next(c, s, t, LookMem)
    ensures ReaderInv(c, t)
  {
    var id, k := s.reader.mem, s.reader.key;
    EndsOrdered(c, s);
    assert MemOk(c, s.log, s.mems[id], id == s.active, QueueEnd(s));
    if DeletedInTime(c, s.log, k) {
      LookedUp(c, s.log, s.mems[id], id == s.active, QueueEnd(s), k);
    }
  }

  lemma SnapshotKeepsReader(c: Config, s: State, t: State)
    requires Inv(c, s) && Next(c, s, t, Snapshot)
    ensures ReaderInv(c, t)
  {
    EndsOrdered(c, s);
  }

  /** What the search of a snapshot leaves behind. */
  lemma SearchedQueue(c: Config, log: seq<Write>, snap: seq<Layer>, k: Key, q: nat, u: nat)
    requires LayersOk(c, log, snap) && DeletedInTime(c, log, k) && Steady(c, log, k, q, u)
    requires snap != [] && q <= snap[|snap| - 1].hi
    ensures var a, e := SearchQueue(c, snap, k), snap[|snap| - 1].hi;
            if a.Found? then Max(e, u) <= |log| && a == Seen(c, log, k, Max(e, u))
            else Steady(c, log, k, snap[0].lo, Max(e, u))
  {
    SearchQueueFacts(c, log, snap, k);
    var e := snap[|snap| - 1].hi;
    assert LayerOk(c, log, snap[|snap| - 1]);
    if SearchQueue(c, snap, k).NotFound? {
      SteadyJoins(c, log, k, snap[0].lo, e, q, u);
    }
  }

  lemma LookQueueKeepsReader(c: Config, s: State, t: State)
    requires Inv(c, s) && Next(c, s, t, LookQueue)
    ensures ReaderInv(c, t)
  {
    var snap, k, q, u := s.reader.snapshot, s.reader.key, s.reader.q, s.reader.u;
    if snap != [] && DeletedInTime(c, s.log, k) {
      SearchedQueue(c, s.log, snap, k, q, u);
    }
  }

  /** What the search of the tables answers. */
  lemma SearchedTables(c: Config, log: seq<Write>, tables: seq<Layer>, purged: nat, k: Key, lo: nat, u: nat)
    requires TablesOk(c, log, tables, purged) && DeletedInTime(c, log, k) && Steady(c, log, k, lo, u)
    requires lo <= LayersEnd(tables, 0)
    ensures var e := Max(LayersEnd(tables, 0), u); e <= |log| && SearchTables(c, tables, k) == Seen(c, log, k, e)
  {
    SearchTablesFacts(c, log, tables, k);
    var e := LayersEnd(tables, 0);
    assert tables != [] ==> LayerOk(c, log, tables[|tables| - 1]);
    assert SealPoint(c, log, e);
  }

  lemma LookTablesKeepsReader(c: Config, s: State, t: State)
    requires Inv(c, s) && Next(c, s, t, LookTables)
    ensures ReaderInv(c, t)
  {
    var k, lo, u := s.reader.key, s.reader.s, s.reader.u;
    EndsOrdered(c, s);
    if DeletedInTime(c, s.log, k) {
      SearchedTables(c, s.log, s.tables, s.purged, k, lo, u);
    }
  }

  predicate IsReaderStep(step: Step) {
    step.Begin? || step.Load? || step.LookMem? || step.Snapshot? || step.LookQueue? || step.LookTables?
  }

  lemma ReaderStepKeepsInv(c: Config, s: State, t: State, step: Step)
    requires Inv(c, s) && Next(c, s, t, step) && IsReaderStep(step)
    ensures Inv(c, t)
  {
    assert ReaderInv(c, t) by {
      match step
      case Begin(k) => BeginKeepsReader(c, s, t, k);
      case Load => LoadKeepsReader(c, s, t);
      case LookMem => LookMemKeepsReader(c, s, t);
      case Snapshot => SnapshotKeepsReader(c, s, t);
      case LookQueue => LookQueueKeepsReader(c, s, t);
      case LookTables => LookTablesKeepsReader(c, s, t);
    }
    OnlyReaderMoved(c, s, t, step);
  }

  lemma OnlyReaderMoved(c: Config, s: State, t: State, step: Step)
    requires StoreInv(c, s) && Next(c, s, t, step) && IsReaderStep(step)
    ensures StoreInv(c, t)
  {
    assert t == s.(reader := t.reader);
  }

  lemma StoreStepKeepsStore(c: Config, s: State, t: State, step: Step)
    requires StoreInv(c, s) && Next(c, s, t, step) && !IsReaderStep(step) && !step.Append?
    ensures StoreInv(c, t) && Progresses(s, t)
  {
    match step
    case Add => AddKeepsStore(c, s, t);
    case NotFull => NotFullKeepsStore(c, s, t);
    case Push => PushKeepsStore(c, s, t);
    case Swap(id) => SwapKeepsStore(c, s, t, id);
    case Clear => ClearKeepsStore(c, s, t);
    case Flush => FlushKeepsStore(c, s, t);
    case Register => RegisterKeepsStore(c, s, t);
    case Purge => PurgeKeepsStore(c, s, t);
    case Pop => PopKeepsStore(c, s, t);
  }

  lemma NextKeepsInv(c: Config, s: State, t: State, step: Step)
    requires Inv(c, s) && Next(c, s, t, step)
    ensures Inv(c, t)
  {
    if IsReaderStep(step) {
      ReaderStepKeepsInv(c, s, t, step);
    } else if step.Append? {
      AppendKeepsStore(c, s, t, step.w);
      AppendKeepsReader(c, s, t, step.w);
    } else {
      StoreStepKeepsStore(c, s, t, step);
      ReaderSurvivesProgress(c, s, t);
    }
  }

  // ---------------------------------------------------------------- runs

  datatype Run = Start(state: State) | Extend(prefix: Run, step: Step, state: State)

  ghost predicate Init(s: State) {
    && s.log == [] && s.purged == 0 && s.queue == [] && s.tables == []
    && s.mems == map[s.active := Memtable(Layer(map[], 0, 0), false)]
    && s.writer == WIdle && s.flusher == FIdle && s.reader == RIdle
  }

  ghost predicate IsRun(c: Config, r: Run) {
    match r
    case Start(s) => Init(s)
    case Extend(p, step, s) => IsRun(c, p) && Next(c, p.state, s, step)
  }

  lemma {:induction false} RunKeepsInv(c: Config, r: Run)
    requires IsRun(c, r)
    ensures Inv(c, r.state)
  {
    match r
    case Start(_) =>
    case Extend(p, step, s) =>
      RunKeepsInv(c, p);
      NextKeepsInv(c, p.state, s, step);
  }

  /** Back pressure: no more full memtables wait to be flushed than the limit allows. */
  lemma {:induction false} QueueBounded(c: Config, r: Run)
    requires IsRun(c, r)
    ensures |r.state.queue| <= c.maxQueue
  {
    if r.Extend? {
      QueueBounded(c, r.prefix);
      QueueStep(c, r.prefix.state, r.state, r.step);
    }
  }

  lemma QueueStep(c: Config, s: State, t: State, step: Step)
    requires Next(c, s, t, step)
    ensures |t.queue| <= |s.queue| || |t.queue| <= c.maxQueue
  {
    if step.Push? {
    } else if step.Pop? {
    } else {
      assert t.queue == s.queue;
    }
  }

  /** r continues p without starting another read. */
  ghost predicate SameRead(p: Run, r: Run) {
    p == r || (r.Extend? && !r.step.Begin? && SameRead(p, r.prefix))
  }

  lemma StepRemembersBegin(c: Config, s: State, t: State, step: Step)
    requires Next(c, s, t, step) && !step.Begin? && !s.reader.RIdle?
    ensures !t.reader.RIdle? && t.reader.key == s.reader.key && t.reader.begin == s.reader.begin
  {
  }

  lemma {:induction false} ReadRemembersBegin(c: Config, p: Run, r: Run)
    requires IsRun(c, r) && SameRead(p, r) && !p.state.reader.RIdle?
    ensures !r.state.reader.RIdle? && r.state.reader.key == p.state.reader.key
            && r.state.reader.begin == p.state.reader.begin
  {
    if p != r {
      ReadRemembersBegin(c, p, r.prefix);
      StepRemembersBegin(c, r.prefix.state, r.state, r.step);
    }
  }

  lemma {:induction false} SameReadIsRun(c: Config, p: Run, r: Run)
    requires IsRun(c, r) && SameRead(p, r)
    ensures IsRun(c, p)
  {
    if p != r {
      SameReadIsRun(c, p, r.prefix);
    }
  }

  /** A finished read shows the key as it was at some moment between its beginning and its end. */
  ghost predicate Atomic(c: Config, p: Run, r: Run, k: Key)
    requires p.Extend? && r.state.reader.RDone?
  {
    Current(c, r.state.log, k, Applied(p.prefix.state), Applied(r.state), r.state.reader.answer)
  }

  /** Reads are atomic: for every interleaving with the writer and the flusher,
      a read of a key that is only deleted in time shows the key as it was at
      some moment during the read. */
  lemma ReadsAreAtomic(c: Config, p: Run, r: Run, k: Key)
    requires IsRun(c, r) && SameRead(p, r) && p.Extend? && p.step == Begin(k)
    requires r.state.reader.RDone? && DeletedInTime(c, r.state.log, k)
    ensures Atomic(c, p, r, k)
  {
    SameReadIsRun(c, p, r);
    ReadRemembersBegin(c, p, r);
    assert ReaderInv(c, r.state) by {
      RunKeepsInv(c, r);
    }
  }

  lemma {:induction false} TableOf(c: Config, log: seq<Write>, tables: seq<Layer>, i: nat) returns (j: nat)
    requires LayersOk(c, log, tables) && tables != [] && tables[0].lo <= i < tables[|tables| - 1].hi
    ensures j < |tables| && tables[j].lo <= i < tables[j].hi
  {
    j := |tables| - 1;
    if i < tables[j].lo {
      assert j > 0 && tables[j].lo == tables[j - 1].hi;
      assert LayersOk(c, log, tables[..j]);
      j := TableOf(c, log, tables[..j], i);
    }
  }

  lemma {:induction false} WrittenIsHeld(log: seq<Write>, lo: nat, hi: nat, i: nat)
    requires lo <= i < hi <= |log|
    ensures log[i].key in Contents(log, lo, hi)
    decreases hi
  {
    if i < hi - 1 {
      WrittenIsHeld(log, lo, hi - 1, i);
    }
  }

  /** In every reachable state, a record purged from the WAL is in a registered
      table that holds its value or a later one of the same key. */
  lemma PurgedIsInTable(c: Config, r: Run, i: nat) returns (j: nat)
    requires IsRun(c, r) && i < r.state.purged
    ensures i < |r.state.log| && j < |r.state.tables|
    ensures var t := r.state.tables[j];
            && t.lo <= i < t.hi <= |r.state.log|
            && r.state.log[i].key in t.data
            && Found(t.data[r.state.log[i].key]) == ValueAt(r.state.log, r.state.log[i].key, t.hi)
  {
    RunKeepsInv(c, r);
    var s := r.state;
    j := TableOf(c, s.log, s.tables, i);
    var t := s.tables[j];
    assert LayerOk(c, s.log, t);
    WrittenIsHeld(s.log, t.lo, t.hi, i);
    ContentsFacts(s.log, t.lo, t.hi, s.log[i].key);
  }
}
