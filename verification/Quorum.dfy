/** Leaderless quorum writes and reads. */
module Quorum {
  import opened Keys
  import opened Versioning
  import opened Assignment

  // ---------------------------------------------------------------- the coordinator

  /** What one owner answered to a read. */
  datatype ReadOutcome = ReadFailed | Missing | Found(envelope: Envelope)

  datatype ReadResult =
    | EmptyKey
    | NoOwners
    | QuorumTooLarge
    | QuorumNotMet(acks: nat)
    | Versions(versions: seq<Envelope>, clock: Clock)

  datatype WriteResult =
    | WriteEmptyKey
    | WriteNoOwners
    | WriteQuorumTooLarge
    | WriteQuorumNotMet(clock: Clock, acks: nat, required: int)
    | Written(clock: Clock, acks: nat, required: int)

  /** Those that answered without an error. */
  function Acks(outcomes: seq<ReadOutcome>): nat {
    if outcomes == [] then 0
    else Acks(outcomes[..|outcomes| - 1]) + if outcomes[|outcomes| - 1].ReadFailed? then 0 else 1
  }

  function FoundIn(outcomes: seq<ReadOutcome>): seq<Envelope> {
    if outcomes == [] then []
    else FoundIn(outcomes[..|outcomes| - 1])
         + if outcomes[|outcomes| - 1].Found? then [outcomes[|outcomes| - 1].envelope] else []
  }

  function Successes(acks: seq<bool>): nat {
    if acks == [] then 0 else Successes(acks[..|acks| - 1]) + if acks[|acks| - 1] then 1 else 0
  }

  function EffectiveQuorum(requested: int, configured: int): int {
    if requested <= 0 then configured else requested
  }

  /** The owners, by position, that answered, that found the key, that took a write. */
  function Answering(outcomes: seq<ReadOutcome>): set<nat> {
    set i: nat | i < |outcomes| && !outcomes[i].ReadFailed?
  }

  function Finding(outcomes: seq<ReadOutcome>): set<nat> {
    set i: nat | i < |outcomes| && outcomes[i].Found?
  }

  function Taking(acks: seq<bool>): set<nat> {
    set i: nat | i < |acks| && acks[i]
  }

  lemma {:induction false} AcksAreAnswering(outcomes: seq<ReadOutcome>)
    ensures Acks(outcomes) == |Answering(outcomes)|
  {
    if outcomes != [] {
      var n := |outcomes| - 1;
      AcksAreAnswering(outcomes[..n]);
      assert Answering(outcomes) == Answering(outcomes[..n]) + if outcomes[n].ReadFailed? then {} else {n};
    }
  }

  lemma {:induction false} SuccessesAreTaking(acks: seq<bool>)
    ensures Successes(acks) == |Taking(acks)|
  {
    if acks != [] {
      var n := |acks| - 1;
      SuccessesAreTaking(acks[..n]);
      assert Taking(acks) == Taking(acks[..n]) + if acks[n] then {n} else {};
    }
  }

  /** What was found is what the owners that found the key answered. */
  lemma {:induction false} FoundAreAnswers(outcomes: seq<ReadOutcome>, e: Envelope)
    ensures e in FoundIn(outcomes) <==> Found(e) in outcomes
  {
    if outcomes != [] {
      var n := |outcomes| - 1;
      FoundAreAnswers(outcomes[..n], e);
      assert outcomes == outcomes[..n] + [outcomes[n]];
    }
  }

  /** Read from all owners; outcomes holds their answers in order of arrival. */
  method Get(key: Key, requested: int, configured: int, outcomes: seq<ReadOutcome>) returns (r: ReadResult)
    ensures r.EmptyKey? <==> key == []
    ensures r.NoOwners? <==> key != [] && outcomes == []
    ensures r.QuorumTooLarge? <==> key != [] && outcomes != [] && EffectiveQuorum(requested, configured) > |outcomes|
    ensures r.QuorumNotMet? <==>
              key != [] && outcomes != [] && Acks(outcomes) < EffectiveQuorum(requested, configured) <= |outcomes|
    ensures r.Versions? ==> r.versions == Survivors(FoundIn(outcomes), |FoundIn(outcomes)|)
    ensures r.Versions? && r.versions != [] ==> IsContext(FoundIn(outcomes), r.clock)
    ensures requested > 0 ==>
              (r.Versions? <==>
                 key != [] && outcomes != [] && requested <= |outcomes| && |Answering(outcomes)| >= requested)
    ensures requested <= 0 ==>
              (r.Versions? <==>
                 key != [] && outcomes != [] && configured <= |outcomes| && |Answering(outcomes)| >= configured)
    ensures r.QuorumNotMet? ==> r.acks == |Answering(outcomes)|
    ensures r.Versions? ==> (forall v :: v in r.versions ==> Found(v) in outcomes)
    ensures r.Versions? ==> (r.versions == [] <==> Finding(outcomes) == {}) && (r.versions == [] ==> r.clock == map[])
    ensures r.Versions? ==> forall e :: Found(e) in outcomes ==>
              Leq(e.clock, r.clock) && exists v :: v in r.versions && Leq(e.clock, v.clock)
  {
    AcksAreAnswering(outcomes);
    if key == [] {
      return EmptyKey;
    }
    if |outcomes| == 0 {
      return NoOwners;
    }
    var quorum := requested;
    if quorum <= 0 {
      quorum := configured;
    }
    if quorum > |outcomes| {
      return QuorumTooLarge;
    }
    var acks := 0;
    var found := [];
    for i := 0 to |outcomes|
      invariant acks == Acks(outcomes[..i]) && found == FoundIn(outcomes[..i])
    {
      assert outcomes[..i + 1][..i] == outcomes[..i];
      if outcomes[i].ReadFailed? {
        continue;
      }
      acks := acks + 1;
      if outcomes[i].Found? {
        found := found + [outcomes[i].envelope];
      }
    }
    assert outcomes[..|outcomes|] == outcomes;
    if acks < quorum {
      return QuorumNotMet(acks);
    }
    AnswersReconciled(outcomes);
    if found == [] {
      return Versions([], map[]);
    }
    var reconciled := Reconcile(found);
    return Versions(reconciled.Versions(), reconciled.Context());
  }

  lemma NothingFound(outcomes: seq<ReadOutcome>)
    ensures FoundIn(outcomes) == [] <==> Finding(outcomes) == {}
  {
    if i :| i in Finding(outcomes) {
      FoundAreAnswers(outcomes, outcomes[i].envelope);
    }
    if FoundIn(outcomes) != [] {
      FoundAreAnswers(outcomes, FoundIn(outcomes)[0]);
      var i :| 0 <= i < |outcomes| && outcomes[i] == Found(FoundIn(outcomes)[0]);
      assert i in Finding(outcomes);
    }
  }

  lemma AnswersAreFound(outcomes: seq<ReadOutcome>)
    ensures forall e :: e in FoundIn(outcomes) <==> Found(e) in outcomes
  {
    forall e ensures e in FoundIn(outcomes) <==> Found(e) in outcomes {
      FoundAreAnswers(outcomes, e);
    }
  }

  /** The reconciled versions are answers, and cover every answer. */
  lemma AnswersReconciled(outcomes: seq<ReadOutcome>)
    ensures var found := FoundIn(outcomes);
            var versions := Survivors(found, |found|);
            && (forall v :: v in versions ==> Found(v) in outcomes)
            && (versions == [] <==> Finding(outcomes) == {}) && (versions == [] <==> found == [])
            && (forall e :: Found(e) in outcomes ==> e in found && exists v :: v in versions && Leq(e.clock, v.clock))
  {
    NothingFound(outcomes);
    AnswersAreFound(outcomes);
    SurvivorsAreMaxima(FoundIn(outcomes));
  }

  /** Write to all owners; acks says which of them took the write. */
  method Put(node: Key, key: Key, context: Clock, requested: int, configured: int,
             acks: seq<bool>) returns (r: WriteResult)
    ensures r.WriteEmptyKey? <==> key == []
    ensures r.WriteNoOwners? <==> key != [] && acks == []
    ensures r.WriteQuorumTooLarge? <==> key != [] && acks != [] && EffectiveQuorum(requested, configured) > |acks|
    ensures r.WriteQuorumNotMet? <==>
              key != [] && acks != [] && Successes(acks) < EffectiveQuorum(requested, configured) <= |acks|
    ensures r.Written? || r.WriteQuorumNotMet? ==>
              r.clock == Increment(context, node) && r.acks == Successes(acks)
              && r.required == EffectiveQuorum(requested, configured)
    ensures requested > 0 ==>
              (r.Written? <==> key != [] && acks != [] && requested <= |acks| && |Taking(acks)| >= requested)
    ensures requested <= 0 ==>
              (r.Written? <==> key != [] && acks != [] && configured <= |acks| && |Taking(acks)| >= configured)
    ensures r.Written? || r.WriteQuorumNotMet? ==>
              r.acks == |Taking(acks)| && r.required == (if requested > 0 then requested else configured)
    ensures r.Written? || r.WriteQuorumNotMet? ==> forall n ::
              Count(r.clock, n) == if n != node then Count(context, n)
                                   else if Count(context, n) == MAX_UINT64 then 0 else Count(context, n) + 1
  {
    SuccessesAreTaking(acks);
    if key == [] {
      return WriteEmptyKey;
    }
    if |acks| == 0 {
      return WriteNoOwners;
    }
    var quorum := requested;
    if quorum <= 0 {
      quorum := configured;
    }
    if quorum > |acks| {
      return WriteQuorumTooLarge;
    }
    var clock := Increment(context, node);
    var count := 0;
    for i := 0 to |acks|
      invariant count == Successes(acks[..i])
    {
      assert acks[..i + 1][..i] == acks[..i];
      if acks[i] {
        count := count + 1;
      }
    }
    assert acks[..|acks|] == acks;
    if count < quorum {
      return WriteQuorumNotMet(clock, count, quorum);
    }
    return Written(clock, count, quorum);
  }

  // ---------------------------------------------------------------- what the owners hold over time

  type Copies = map<Key, Copy>

  /** A copy is kept, or filled, or replaced by a causally newer version. */
  ghost predicate Evolves(before: Copies, after: Copies) {
    && after.Keys == before.Keys
    && forall o :: o in before ==>
         || after[o] == before[o]
         || (&& after[o].Holds?
             && (before[o].Holds? ==> Relate(before[o].envelope.clock, after[o].envelope.clock) == Before))
  }

  datatype History = Now(copies: Copies) | Then(past: History, copies: Copies)

  ghost predicate IsHistory(h: History) {
    h.Then? ==> IsHistory(h.past) && Evolves(h.past.copies, h.copies)
  }

  ghost predicate Earlier(p: History, h: History) {
    p == h || (h.Then? && Earlier(p, h.past))
  }

  /** What an owner once held stays covered by what it holds later. */
  lemma {:induction false} CopyOnlyGrows(p: History, h: History, o: Key)
    requires IsHistory(h) && Earlier(p, h) && o in p.copies && p.copies[o].Holds?
    ensures o in h.copies && h.copies[o].Holds?
    ensures Leq(p.copies[o].envelope.clock, h.copies[o].envelope.clock)
  {
    if p != h {
      CopyOnlyGrows(p, h.past, o);
      LeqTransitive(p.copies[o].envelope.clock, h.past.copies[o].envelope.clock, h.copies[o].envelope.clock);
    }
  }

  // ---------------------------------------------------------------- intersecting quorums

  /** The owners whose flag is set. */
  ghost function Flagged(owners: seq<Key>, flags: seq<bool>): set<Key>
    requires |owners| == |flags|
  {
    set i | 0 <= i < |owners| && flags[i] :: owners[i]
  }

  lemma {:induction false} FlaggedCount(owners: seq<Key>, flags: seq<bool>)
    requires |owners| == |flags| && Distinct(owners)
    ensures Flagged(owners, flags) <= Elements(owners) && |Flagged(owners, flags)| == Successes(flags)
  {
    if owners != [] {
      var n := |owners| - 1;
      FlaggedCount(owners[..n], flags[..n]);
      FlaggedStep(owners, flags);
    } else {
      assert Flagged(owners, flags) == {};
    }
  }

  lemma FlaggedStep(owners: seq<Key>, flags: seq<bool>)
    requires |owners| == |flags| && Distinct(owners) && owners != []
    ensures var n := |owners| - 1;
            var before := Flagged(owners[..n], flags[..n]);
            && owners[n] !in before
            && Flagged(owners, flags) == if flags[n] then before + {owners[n]} else before
  {
    var n := |owners| - 1;
    var before := Flagged(owners[..n], flags[..n]);
    forall o ensures o in before <==> exists i :: 0 <= i < n && flags[i] && owners[i] == o {
    }
  }

  function Answered(outcomes: seq<ReadOutcome>): (flags: seq<bool>)
    ensures |flags| == |outcomes| && forall i :: 0 <= i < |outcomes| ==> flags[i] == !outcomes[i].ReadFailed?
  {
    seq(|outcomes|, i requires 0 <= i < |outcomes| => !outcomes[i].ReadFailed?)
  }

  lemma {:induction false} AcksAreAnswers(outcomes: seq<ReadOutcome>)
    ensures Acks(outcomes) == Successes(Answered(outcomes))
  {
    if outcomes != [] {
      var n := |outcomes| - 1;
      AcksAreAnswers(outcomes[..n]);
      assert Answered(outcomes)[..n] == Answered(outcomes[..n]);
    }
  }

  lemma SetsMeet(a: set<Key>, b: set<Key>, all: set<Key>)
    requires a <= all && b <= all && |a| + |b| > |all|
    ensures a * b != {}
  {
    if a * b == {} {
      assert |a + b| == |a| + |b|;
      SubsetCount(a + b, all);
    }
  }

  /** A write quorum and a read quorum share an owner. */
  lemma QuorumsMeet(owners: seq<Key>, outcomes: seq<ReadOutcome>, acked: set<Key>) returns (i: nat)
    requires |owners| == |outcomes| && Distinct(owners) && acked <= Elements(owners)
    requires |acked| + Acks(outcomes) > |owners|
    ensures i < |owners| && owners[i] in acked && !outcomes[i].ReadFailed?
  {
    var responders := Flagged(owners, Answered(outcomes));
    FlaggedCount(owners, Answered(outcomes));
    AcksAreAnswers(outcomes);
    DistinctCount(owners);
    SetsMeet(acked, responders, Elements(owners));
    var o :| o in acked * responders;
    i :| 0 <= i < |owners| && Answered(outcomes)[i] && owners[i] == o;
  }

  lemma {:induction false} FoundContains(outcomes: seq<ReadOutcome>, i: nat)
    requires i < |outcomes| && outcomes[i].Found?
    ensures outcomes[i].envelope in FoundIn(outcomes)
  {
    if i < |outcomes| - 1 {
      FoundContains(outcomes[..|outcomes| - 1], i);
    }
  }

  /** Each owner answered from what it held at some moment since the write. */
  ghost predicate AnsweredSince(written: History, owners: seq<Key>, moments: seq<History>, outcomes: seq<ReadOutcome>) {
    && |owners| == |moments| == |outcomes|
    && forall i :: 0 <= i < |owners| ==>
         && IsHistory(moments[i]) && Earlier(written, moments[i]) && owners[i] in moments[i].copies
         && (outcomes[i].Missing? ==> moments[i].copies[owners[i]] == Absent)
         && (outcomes[i].Found? ==> moments[i].copies[owners[i]] == Holds(outcomes[i].envelope))
  }

  /** With overlapping quorums, a read returns a context that covers every
      acknowledged write, and no version that the write supersedes, even though
      the owners may answer at different moments. */
  lemma QuorumReadSeesWrite(owners: seq<Key>, written: History, acked: set<Key>, clock: Clock,
                            moments: seq<History>, outcomes: seq<ReadOutcome>, context: Clock)
    requires Distinct(owners) && acked <= Elements(owners)
    requires forall o :: o in acked ==>
               o in written.copies && written.copies[o].Holds? && Leq(clock, written.copies[o].envelope.clock)
    requires AnsweredSince(written, owners, moments, outcomes)
    requires |acked| + Acks(outcomes) > |owners|
    requires IsContext(FoundIn(outcomes), context)
    ensures FoundIn(outcomes) != [] && Leq(clock, context)
    ensures forall v :: v in Survivors(FoundIn(outcomes), |FoundIn(outcomes)|) ==> Relate(v.clock, clock) != Before
  {
    var found := FoundIn(outcomes);
    var i := QuorumsMeet(owners, outcomes, acked);
    var o := owners[i];
    CopyOnlyGrows(written, moments[i], o);
    var e := outcomes[i].envelope;
    FoundContains(outcomes, i);
    LeqTransitive(clock, written.copies[o].envelope.clock, e.clock);
    LeqTransitive(clock, e.clock, context);
    forall v | v in Survivors(found, |found|) ensures Relate(v.clock, clock) != Before {
      if Relate(v.clock, clock) == Before {
        BeforeTransitive(v.clock, clock, e.clock);
        var x :| 0 <= x < |Survivors(found, |found|)| && Survivors(found, |found|)[x] == v;
        var a := SurvivorAt(found, |found|, x);
        var b :| 0 <= b < |found| && found[b] == e;
        assert Shadows(found, b, a);
      }
    }
  }

  /** Every owner that took the write held it, or something causally newer, in the state written. */
  ghost predicate TookWrite(owners: seq<Key>, acks: seq<bool>, written: History, clock: Clock) {
    && |owners| == |acks|
    && forall i :: 0 <= i < |owners| && acks[i] ==>
         && owners[i] in written.copies && written.copies[owners[i]].Holds?
         && Leq(clock, written.copies[owners[i]].envelope.clock)
  }

  /** A write and a read of the same owners, whose answers arrive in any order,
      with quorums that together exceed the number of owners: if both succeed,
      the read returns a version, its context covers the write, and no version
      it returns is older than the write. */
  method WriteThenRead(node: Key, key: Key, context: Clock, requestedWrite: int, configuredWrite: int, acks: seq<bool>,
                       requestedRead: int, configuredRead: int, outcomes: seq<ReadOutcome>,
                       ghost takers: seq<Key>, ghost written: History,
                       ghost answerers: seq<Key>, ghost moments: seq<History>)
      returns (w: WriteResult, r: ReadResult)
    requires Distinct(takers) && Distinct(answerers) && Elements(takers) == Elements(answerers)
    requires TookWrite(takers, acks, written, Increment(context, node))
    requires AnsweredSince(written, answerers, moments, outcomes)
    requires EffectiveQuorum(requestedWrite, configuredWrite) + EffectiveQuorum(requestedRead, configuredRead)
             > |answerers|
    ensures w.Written? && r.Versions? ==>
              && r.versions != [] && Leq(w.clock, r.clock)
              && forall v :: v in r.versions ==> Relate(v.clock, w.clock) != Before
  {
    w := Put(node, key, context, requestedWrite, configuredWrite, acks);
    r := Get(key, requestedRead, configuredRead, outcomes);
    if w.Written? && r.Versions? {
      ghost var acked := Flagged(takers, acks);
      FlaggedCount(takers, acks);
      ghost var i := QuorumsMeet(answerers, outcomes, acked);
      CopyOnlyGrows(written, moments[i], answerers[i]);
      FoundContains(outcomes, i);
      assert r.versions != [] by {
        SurvivorsAreMaxima(FoundIn(outcomes));
      }
      QuorumReadSeesWrite(answerers, written, acked, w.clock, moments, outcomes, r.clock);
    }
  }

  /** A write made in the context of a read supersedes every version the read
      was based on, provided the writer's counter is not exhausted. */
  lemma WriteAfterReadSupersedes(found: seq<Envelope>, context: Clock, node: Key)
    requires found != [] && IsContext(found, context) && Count(context, node) != MAX_UINT64
    ensures forall v :: v in found ==> Relate(v.clock, Increment(context, node)) == Before
  {
    IncrementSupersedesIff(context, node);
  }
}
