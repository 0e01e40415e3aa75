/** When a delete is not seen: a memtable hides a tombstone, so that a read goes
    on to older layers, and finds there what was sealed before. */
module DeletedReads {
  import opened Keys
  import opened EngineReads

  lemma Extended(c: Config, r: Run, step: Step, t: State) returns (e: Run)
    requires IsRun(c, r) && Next(c, r.state, t, step)
    ensures e == Extend(r, step, t) && IsRun(c, e)
  {
    e := Extend(r, step, t);
  }

  lemma ActiveExists(c: Config, r: Run)
    requires IsRun(c, r)
    ensures r.state.active in r.state.mems
  {
    RunKeepsInv(c, r);
  }

  /** A run that has written the first n writes of log; nobody else is at work and nothing is queued. */
  ghost predicate Wrote(c: Config, r: Run, log: seq<Write>, n: nat, writer: WriterAt) {
    && IsRun(c, r) && n <= |log| && r.state.log == log[..n] && r.state.writer == writer
    && r.state.flusher == FIdle && r.state.reader == RIdle && r.state.queue == []
  }

  lemma WriteOne(c: Config, r: Run, log: seq<Write>, n: nat) returns (t: Run)
    requires Wrote(c, r, log, n, WIdle) && n < |log|
    ensures Wrote(c, t, log, n + 1, WAdded)
  {
    ActiveExists(c, r);
    var s := r.state;
    assert log[..n + 1] == log[..n] + [log[n]];
    var a := s.(log := log[..n + 1], writer := WAppended);
    t := Extended(c, r, Append(log[n]), a);
    var m := a.mems[a.active];
    var l := Layer(m.layer.data[log[n].key := log[n].value], m.layer.lo, m.layer.hi + 1);
    t := Extended(c, t, Add, a.(mems := a.mems[a.active := m.(layer := l)], writer := WAdded));
  }

  lemma FreshId(ids: set<nat>) returns (id: nat)
    ensures id !in ids
  {
    if ids == {} {
      id := 0;
    } else {
      var top :| top in ids;
      id := FreshIdAbove(ids, top);
    }
  }

  lemma FreshIdAbove(ids: set<nat>, n: nat) returns (id: nat)
    ensures id !in ids && id >= n
    decreases ids
  {
    if n in ids {
      id := FreshIdAbove(ids - {n}, n + 1);
    } else {
      id := n;
    }
  }

  /** The writer seals a full memtable. */
  lemma SealFull(c: Config, r: Run, log: seq<Write>, n: nat) returns (t: Run)
    requires Wrote(c, r, log, n, WAdded) && c.maxQueue >= 1 && r.state.active in r.state.mems
    requires c.full(r.state.mems[r.state.active].layer.data)
    ensures IsRun(c, t) && |t.state.queue| == 1
    ensures Wrote(c, r, log, n, WAdded) && t.state.log == log[..n] && t.state.writer == WIdle
    ensures t.state.flusher == FIdle && t.state.reader == RIdle
  {
    var s := r.state;
    var id := FreshId(s.mems.Keys);
    var a := s.(queue := s.queue + [s.mems[s.active].layer], writer := WPushed);
    t := Extended(c, r, Push, a);
    var b := a.(mems := a.mems[id := Memtable(Layer(map[], |s.log|, |s.log|), false)], active := id,
                writer := WSwapped(s.active));
    t := Extended(c, t, Swap(id), b);
    var m := b.mems[s.active];
    var d := b.(mems := b.mems[s.active := Memtable(Layer(map[], m.layer.lo, m.layer.hi), true)], writer := WIdle);
    t := Extended(c, t, Clear, d);
  }

  /** The flusher turns the only queued memtable into a table. */
  lemma FlushOne(c: Config, r: Run) returns (t: Run)
    requires IsRun(c, r) && |r.state.queue| == 1 && r.state.flusher == FIdle && r.state.active in r.state.mems
    ensures IsRun(c, t) && t.state.queue == [] && t.state.flusher == FIdle
    ensures t.state.log == r.state.log && t.state.writer == r.state.writer && t.state.reader == r.state.reader
  {
    var s := r.state;
    var a := s.(flusher := FFlushed);
    t := Extended(c, r, Flush, a);
    var b := a.(tables := a.tables + [a.queue[0]], flusher := FRegistered);
    t := Extended(c, t, Register, b);
    var d := b.(purged := if b.queue[0].hi > b.purged then b.queue[0].hi else b.purged, flusher := FPurged);
    t := Extended(c, t, Purge, d);
    t := Extended(c, t, Pop, d.(queue := d.queue[1..], flusher := FIdle));
  }

  /** The writer goes on, after sealing and flushing if it must. */
  lemma GoOn(c: Config, r: Run, log: seq<Write>, n: nat) returns (t: Run)
    requires Wrote(c, r, log, n, WAdded) && c.maxQueue >= 1
    ensures Wrote(c, t, log, n, WIdle)
  {
    ActiveExists(c, r);
    if c.full(r.state.mems[r.state.active].layer.data) {
      t := SealFull(c, r, log, n);
      ActiveExists(c, t);
      t := FlushOne(c, t);
    } else {
      t := Extended(c, r, NotFull, r.state.(writer := WIdle));
    }
  }

  lemma {:induction false} WriteMany(c: Config, log: seq<Write>, n: nat) returns (r: Run)
    requires c.maxQueue >= 1 && n <= |log|
    ensures Wrote(c, r, log, n, WIdle)
  {
    if n == 0 {
      r := Start(State([], 0, map[0 := Memtable(Layer(map[], 0, 0), false)], 0, [], [], WIdle, FIdle, RIdle));
    } else {
      r := WriteMany(c, log, n - 1);
      r := WriteOne(c, r, log, n - 1);
      r := GoOn(c, r, log, n);
    }
  }

  /** A read that begins and misses the active memtable. */
  lemma MissMem(c: Config, r: Run, k: Key) returns (p: Run, t: Run)
    requires IsRun(c, r) && r.state.reader == RIdle && r.state.active in r.state.mems
    requires Get(c, r.state.mems[r.state.active].layer.data, k) == NotFound
    ensures IsRun(c, t) && SameRead(p, t) && p.Extend? && p.step == Begin(k) && p.prefix == r
    ensures t.state.reader.RMissedMem? && t.state.reader.key == k && t.state.reader.begin == Applied(r.state)
    ensures t.state == r.state.(reader := t.state.reader)
  {
    var s := r.state;
    var begin, m := Applied(s), s.mems[s.active];
    var q := if m.cleared then m.layer.hi else m.layer.lo;
    p := Extended(c, r, Begin(k), s.(reader := RBegun(k, begin)));
    var b := Extended(c, p, Load, s.(reader := RLoaded(k, begin, s.active)));
    t := Extended(c, b, LookMem, s.(reader := RMissedMem(k, begin, q, m.layer.hi)));
    assert SameRead(p, b);
  }

  /** With nothing queued, the read is answered by the tables. */
  lemma AskTables(c: Config, p: Run, r: Run) returns (t: Run)
    requires IsRun(c, r) && SameRead(p, r) && r.state.reader.RMissedMem? && r.state.active in r.state.mems
             && r.state.queue == []
    ensures IsRun(c, t) && SameRead(p, t)
    ensures var x := r.state.reader;
            t.state == r.state.(reader := RDone(x.key, x.begin, SearchTables(c, r.state.tables, x.key)))
  {
    var s, x := r.state, r.state.reader;
    var b := Extended(c, r, Snapshot, s.(reader := RSnapshot(x.key, x.begin, x.q, x.u, [])));
    var d := Extended(c, b, LookQueue, s.(reader := RMissedQueue(x.key, x.begin, x.q, x.u)));
    t := Extended(c, d, LookTables, s.(reader := RDone(x.key, x.begin, SearchTables(c, s.tables, x.key))));
    assert SameRead(p, b);
    assert SameRead(p, d);
  }

  /** Every finished read of k, in every run whose log is a prefix of log, is atomic. */
  ghost predicate AllReadsAtomic(c: Config, log: seq<Write>, k: Key) {
    forall p, r | IsRun(c, r) && SameRead(p, r) && p.Extend? && p.step == Begin(k)
                  && r.state.reader.RDone? && r.state.log <= log ::
      Atomic(c, p, r, k)
  }

  ghost predicate NoDelete(c: Config, log: seq<Write>, k: Key, b: nat, n: nat)
    requires n <= |log|
  {
    forall i :: b <= i < n ==> log[i] != Write(k, c.tombstone)
  }

  /** A key that has a value keeps one until it is deleted. */
  lemma {:induction false} SeenUntilDeleted(c: Config, log: seq<Write>, k: Key, b: nat, n: nat)
    requires b <= n <= |log| && Seen(c, log, k, b).Found?
    requires NoDelete(c, log, k, b, n)
    ensures Seen(c, log, k, n).Found?
  {
    if b < n {
      SeenUntilDeleted(c, log, k, b, n - 1);
    }
  }

  /** The memtable that holds everything since Base(j), with the delete at position j as its last entry. */
  lemma LastInMemtable(c: Config, log: seq<Write>, m: Memtable, queueEnd: nat)
    requires ActiveOk(c, log, m, WAdded, queueEnd)
    ensures var w := log[|log| - 1]; w.key in m.layer.data && m.layer.data[w.key] == w.value
    ensures queueEnd == Base(c, log, |log| - 1)
  {
  }

  lemma TablesAnswer(c: Config, s: State, k: Key)
    requires TablesOk(c, s.log, s.tables, s.purged)
    ensures TablesEnd(s) <= |s.log| && SearchTables(c, s.tables, k) == Seen(c, s.log, k, TablesEnd(s))
  {
    SearchTablesFacts(c, s.log, s.tables, k);
  }

  /** What is in the active memtable right after the delete at position j, and what the tables say. */
  lemma DeleteIsHidden(c: Config, s: State, k: Key)
    requires StoreInv(c, s) && s.writer == WAdded && s.queue == [] && s.log[|s.log| - 1] == Write(k, c.tombstone)
    ensures Get(c, s.mems[s.active].layer.data, k) == NotFound
    ensures SearchTables(c, s.tables, k) == Seen(c, s.log, k, Base(c, s.log, |s.log| - 1))
  {
    LastInMemtable(c, s.log, s.mems[s.active], QueueEnd(s));
    TablesAnswer(c, s, k);
  }

  lemma DeleteIsHiddenIn(c: Config, r: Run, k: Key)
    requires IsRun(c, r) && r.state.writer == WAdded && r.state.queue == []
    requires r.state.log != [] && r.state.log[|r.state.log| - 1] == Write(k, c.tombstone)
    ensures r.state.active in r.state.mems && Get(c, r.state.mems[r.state.active].layer.data, k) == NotFound
    ensures SearchTables(c, r.state.tables, k) == Seen(c, r.state.log, k, Base(c, r.state.log, |r.state.log| - 1))
  {
    RunKeepsInv(c, r);
    DeleteIsHidden(c, r.state, k);
  }

  /** The value sealed at b, or a later one, is what the memtable of position j began with. */
  lemma SealedValueStays(c: Config, p: seq<Write>, log: seq<Write>, k: Key, b: nat, j: nat)
    requires p <= log && |p| == j + 1 && SealPoint(c, log, b) && b <= j && Seen(c, log, k, b).Found?
    requires NoDelete(c, log, k, b, j)
    ensures Seen(c, p, k, Base(c, p, j)).Found?
  {
    SealPrefix(c, p, log, b);
    BaseAbove(c, p, b, j);
    ValuePrefix(p, log, k, b);
    assert forall i :: b <= i < j ==> p[i] == log[i];
    SeenUntilDeleted(c, p, k, b, Base(c, p, j));
  }

  /** A run that has just put the delete at position j into the memtable. */
  lemma RunToDelete(c: Config, log: seq<Write>, k: Key, j: nat) returns (r: Run)
    requires c.maxQueue >= 1 && j < |log| && log[j] == Write(k, c.tombstone)
    ensures Wrote(c, r, log, j + 1, WAdded)
    ensures r.state.active in r.state.mems && Get(c, r.state.mems[r.state.active].layer.data, k) == NotFound
    ensures SearchTables(c, r.state.tables, k) == Seen(c, r.state.log, k, Base(c, r.state.log, j))
  {
    r := WriteMany(c, log, j);
    r := WriteOne(c, r, log, j);
    DeleteIsHiddenIn(c, r, k);
  }

  /** A read that misses the active memtable, with nothing queued. */
  lemma ReadPast(c: Config, r: Run, k: Key) returns (p: Run, t: Run)
    requires IsRun(c, r) && r.state.reader == RIdle && r.state.active in r.state.mems && r.state.queue == []
    requires Get(c, r.state.mems[r.state.active].layer.data, k) == NotFound
    ensures IsRun(c, t) && SameRead(p, t) && p.Extend? && p.step == Begin(k) && p.prefix == r
    ensures t.state == r.state.(reader := RDone(k, Applied(r.state), SearchTables(c, r.state.tables, k)))
  {
    p, t := MissMem(c, r, k);
    t := AskTables(c, p, t);
  }

  /** A memtable hides the delete at position j, and the search goes on in the
      tables, where it finds the value that was sealed before. */
  lemma StaleRead(c: Config, log: seq<Write>, k: Key, b: nat, j: nat) returns (p: Run, t: Run)
    requires c.maxQueue >= 1 && SealPoint(c, log, b) && b <= j < |log| && log[j] == Write(k, c.tombstone)
    requires Seen(c, log, k, b).Found? && NoDelete(c, log, k, b, j)
    ensures IsRun(c, t) && SameRead(p, t) && p.Extend? && p.step == Begin(k)
    ensures t.state.log == log[..j + 1] && Applied(p.prefix.state) == Applied(t.state) == j + 1
    ensures t.state.reader.RDone? && t.state.reader.answer.Found? && Seen(c, log, k, j + 1) == NotFound
  {
    var r := RunToDelete(c, log, k, j);
    assert SearchTables(c, r.state.tables, k).Found? by {
      SealedValueStays(c, r.state.log, log, k, b, j);
    }
    p, t := ReadPast(c, r, k);
    assert Seen(c, log, k, j + 1) == NotFound;
  }

  lemma FirstDelete(c: Config, log: seq<Write>, k: Key, b: nat, j: nat) returns (i: nat)
    requires b <= j < |log| && log[j] == Write(k, c.tombstone)
    ensures b <= i <= j && log[i] == Write(k, c.tombstone) && NoDelete(c, log, k, b, i)
  {
    i := b;
    while log[i] != Write(k, c.tombstone)
      invariant b <= i <= j && NoDelete(c, log, k, b, i)
      decreases j - i
    {
      i := i + 1;
    }
  }

  /** If k is deleted after a memtable was sealed while it had a value, some read still shows a value. */
  lemma DeletedKeyReappears(c: Config, log: seq<Write>, k: Key, b: nat, j: nat)
    requires c.maxQueue >= 1 && SealPoint(c, log, b) && b <= j < |log| && log[j] == Write(k, c.tombstone)
    requires Seen(c, log, k, b).Found?
    ensures !AllReadsAtomic(c, log, k)
  {
    var i := FirstDelete(c, log, k, b, j);
    var p, t := StaleRead(c, log, k, b, i);
    ValuePrefix(t.state.log, log, k, i + 1);
    assert !Atomic(c, p, t, k);
  }

  /** Whatever the size of a memtable: reads of k are atomic in all runs over a
      log exactly when k is never deleted after a memtable was sealed while k
      had a value. */
  lemma ReadsAtomicIff(c: Config, log: seq<Write>, k: Key)
    requires c.maxQueue >= 1
    ensures AllReadsAtomic(c, log, k) <==> DeletedInTime(c, log, k)
  {
    if DeletedInTime(c, log, k) {
      forall p, r | IsRun(c, r) && SameRead(p, r) && p.Extend? && p.step == Begin(k)
                    && r.state.reader.RDone? && r.state.log <= log
        ensures Atomic(c, p, r, k)
      {
        DeletedInTimePrefix(c, r.state.log, log, k);
        ReadsAreAtomic(c, p, r, k);
      }
    } else {
      var b: nat, j: nat :| SealPoint(c, log, b) && b <= j < |log| && log[j] == Write(k, c.tombstone)
                            && Seen(c, log, k, b) != NotFound;
      DeletedKeyReappears(c, log, k, b, j);
    }
  }

  /** A key that is never deleted after having had a value is deleted in time, whatever the memtable size. */
  lemma NeverDeletedIsInTime(c: Config, log: seq<Write>, k: Key)
    requires forall i, j :: 0 <= i < j < |log| && log[i].key == log[j].key == k && log[i].value != c.tombstone ==>
               log[j].value != c.tombstone
    ensures DeletedInTime(c, log, k)
  {
    forall b: nat, j: nat | SealPoint(c, log, b) && b <= j < |log| && log[j] == Write(k, c.tombstone)
      ensures Seen(c, log, k, b) == NotFound
    {
      if Seen(c, log, k, b).Found? {
        var i := ValueIsWritten(log, k, b);
      }
    }
  }
}
