/** The SWIM protocol as a message-passing state machine: records travel with
    arbitrary delay, duplication and reordering. */
module Swim {
  import opened Keys
  import opened Membership

  /** A record in flight. A node's report about itself (as sender or responder
      of a ping) is told apart from hearsay, because only the former is ever
      installed without regard to precedence. */
  datatype Packet = SelfReport(record: Member) | Hearsay(record: Member)

  /** Packets are never removed: each may be delivered late, twice, or never. */
  datatype State = State(views: map<Key, View>, sent: set<Packet>)

  datatype Step =
    | Report(node: Key)                                      // send the local record
    | Gossip(node: Key, about: Key)                          // send an entry of the table
    | Deliver(node: Key, packet: Packet)                     // merge a received record
    | Confirm(node: Key, packet: Packet)                     // install the answer of a probed peer
    | Condemned(node: Key, about: Key, incarnation: uint64, into: Status) // a probe failed
    | Proactive(node: Key)                                   // clear suspicion unasked
    | Publish(node: Key, epoch: uint64)                      // advertise a range-map epoch

  predicate WellFormed(v: View, n: Key) {
    v.localId == n && n in v.members && forall x :: x in v.members ==> v.members[x].nodeId == x
  }

  ghost predicate Init(s: State) {
    && s.sent == {}
    && forall n :: n in s.views ==>
         WellFormed(s.views[n], n) && s.views[n].members.Keys == {n} && s.views[n].members[n].status == Alive
  }

  /** An accusation that makes its victim refute. */
  predicate Accuses(r: Member, x: Key, own: uint64) {
    r.nodeId == x && (r.status == Suspect || r.status == Dead) && r.incarnation >= own
  }

  /** What the deployment lets happen: a seed address may be the node's own, so
      that it probes itself; the incarnation counter may run past its maximum. */
  datatype Rules = Rules(selfProbe: bool, overflow: bool)

  const CAREFUL := Rules(false, false)

  ghost predicate Enabled(rules: Rules, s: State, step: Step) {
    && step.node in s.views && WellFormed(s.views[step.node], step.node)
    && match step
       case Report(_) => true
       case Gossip(n, x) => x in s.views[n].members
       // without overflow, a node at the maximum is not accused any more
       case Deliver(n, p) =>
         && p in s.sent
         && (rules.overflow || p.record.incarnation < MAX_UINT64
             || !Accuses(p.record, n, s.views[n].members[n].incarnation))
       // a probe is answered by the probed node
       case Confirm(n, p) => p in s.sent && p.SelfReport? && (rules.selfProbe || p.record.nodeId != n)
       case Condemned(_, _, _, into) => into == Suspect || into == Dead
       case Proactive(n) => rules.overflow || s.views[n].members[n].incarnation < MAX_UINT64
       case Publish(_, _) => true
  }

  /** What the step makes of its node's table. */
  function ViewAfter(v: View, step: Step): View
    requires v.localId in v.members
  {
    match step
    case Report(_) => v
    case Gossip(_, _) => v
    case Deliver(_, p) => MergeMember(v, p.record)
    case Confirm(_, p) => UpsertMember(v, p.record)
    case Condemned(_, x, i, into) => Condemn(v, x, i, if into == Suspect then Alive else Suspect, into)
    case Proactive(_) => RefuteLocal(v)
    case Publish(_, e) => PublishEpoch(v, e)
  }

  /** What the step sends. */
  function Emitted(v: View, step: Step): set<Packet>
    requires v.localId in v.members
  {
    match step
    case Report(_) => {SelfReport(v.members[v.localId])}
    case Gossip(_, x) => if x in v.members then {Hearsay(v.members[x])} else {}
    case _ => {}
  }

  function After(s: State, step: Step): State
    requires step.node in s.views && s.views[step.node].localId in s.views[step.node].members
  {
    var v := s.views[step.node];
    State(s.views[step.node := ViewAfter(v, step)], s.sent + Emitted(v, step))
  }

  // ---------------------------------------------------------------- the invariant

  /** r does not name an incarnation that its node has not reached. */
  ghost predicate Owned(own: map<Key, uint64>, r: Member) {
    r.nodeId in own && r.incarnation <= own[r.nodeId]
  }

  /** Node n believes itself alive at its own incarnation, and is not ahead of anybody else. */
  ghost predicate ViewOk(v: View, n: Key, own: map<Key, uint64>) {
    && WellFormed(v, n) && n in own
    && v.members[n].status == Alive && v.members[n].incarnation == own[n]
    && forall x :: x in v.members ==> Owned(own, v.members[x])
  }

  ghost predicate PacketOk(p: Packet, own: map<Key, uint64>) {
    Owned(own, p.record) && (p.SelfReport? ==> p.record.status == Alive)
  }

  /** own gives every node's own incarnation; nothing anywhere exceeds it. */
  ghost predicate Inv(s: State, own: map<Key, uint64>) {
    && own.Keys == s.views.Keys
    && (forall n :: n in s.views ==> ViewOk(s.views[n], n, own))
    && (forall p :: p in s.sent ==> PacketOk(p, own))
  }

  ghost predicate Advances(own: map<Key, uint64>, own': map<Key, uint64>) {
    own.Keys == own'.Keys && forall x :: x in own ==> own[x] <= own'[x]
  }

  lemma InstallOk(v: View, n: Key, own: map<Key, uint64>, m: Member)
    requires ViewOk(v, n, own)
    requires if m.nodeId == n then m.status == Alive && m.incarnation >= own[n] else Owned(own, m)
    ensures var own' := if m.nodeId == n then own[n := m.incarnation] else own;
            ViewOk(Install(v, m), n, own') && Advances(own, own')
  {
  }

  /** A view replaced by one that is still in order. */
  lemma ReplaceView(s: State, own: map<Key, uint64>, n: Key, w: View, own': map<Key, uint64>)
    requires Inv(s, own) && n in s.views && ViewOk(w, n, own') && Advances(own, own')
    requires forall x :: x in own && x != n ==> own'[x] == own[x]
    ensures Inv(s.(views := s.views[n := w]), own')
  {
    var t := s.(views := s.views[n := w]);
    forall x | x in t.views ensures ViewOk(t.views[x], x, own') {
    }
  }

  function Bump(own: map<Key, uint64>, n: Key, w: View): map<Key, uint64>
    requires n in w.members
  {
    own[n := w.members[n].incarnation]
  }

  lemma MergeOk(v: View, n: Key, own: map<Key, uint64>, r: Member)
    requires ViewOk(v, n, own) && Owned(own, r) && (Accuses(r, n, own[n]) ==> r.incarnation < MAX_UINT64)
    ensures var w := MergeMember(v, r);
            n in w.members && ViewOk(w, n, Bump(own, n, w)) && Advances(own, Bump(own, n, w))
  {
    var w := MergeMember(v, r);
    if w == v {
      assert Bump(own, n, w) == own;
    } else {
      var m := w.members[r.nodeId];
      InstallOk(v, n, own, m);
      assert w.members == Install(v, m).members;
      assert Bump(own, n, w) == if m.nodeId == n then own[n := m.incarnation] else own;
    }
  }

  lemma ChangeOk(v: View, n: Key, own: map<Key, uint64>, m: Member)
    requires ViewOk(v, n, own)
    requires if m.nodeId == n then m.status == Alive && m.incarnation >= own[n] else Owned(own, m)
    ensures var w := Install(v, m); n in w.members && ViewOk(w, n, Bump(own, n, w)) && Advances(own, Bump(own, n, w))
  {
    InstallOk(v, n, own, m);
    assert Bump(own, n, Install(v, m)) == if m.nodeId == n then own[n := m.incarnation] else own;
  }

  /** The packet a step consumes, if any, is in order and does not exhaust the incarnations. */
  ghost predicate StepOk(v: View, n: Key, own: map<Key, uint64>, step: Step)
    requires n in own
  {
    match step
    case Deliver(_, p) => PacketOk(p, own) && (Accuses(p.record, n, own[n]) ==> p.record.incarnation < MAX_UINT64)
    case Confirm(_, p) => PacketOk(p, own) && p.record.nodeId != n
    case Proactive(_) => own[n] < MAX_UINT64
    case _ => true
  }

  /** What a step makes of its node's view keeps the view in order. */
  lemma ViewStepOk(v: View, n: Key, own: map<Key, uint64>, step: Step)
    requires ViewOk(v, n, own) && StepOk(v, n, own, step)
    ensures var w := ViewAfter(v, step);
            n in w.members && ViewOk(w, n, Bump(own, n, w)) && Advances(own, Bump(own, n, w))
  {
    var w := ViewAfter(v, step);
    match step
    case Deliver(_, p) =>
      MergeOk(v, n, own, p.record);
    case Confirm(_, p) =>
      ChangeOk(v, n, own, p.record.(clusterId := v.clusterId));
      UnchangedOk(v, n, own);
    case Condemned(_, x, _, into) =>
      if x in v.members && x != n {
        ChangeOk(v, n, own, v.members[x].(status := into));
      }
      UnchangedOk(v, n, own);
    case Proactive(_) =>
      ChangeOk(v, n, own, v.members[n].(incarnation := NextIncarnation(own[n]), status := Alive));
    case Publish(_, e) =>
      ChangeOk(v, n, own, v.members[n].(rangeMapEpoch := e));
    case _ =>
      UnchangedOk(v, n, own);
  }

  lemma UnchangedOk(v: View, n: Key, own: map<Key, uint64>)
    requires ViewOk(v, n, own)
    ensures Bump(own, n, v) == own
  {
  }

  lemma SendOk(s: State, own: map<Key, uint64>, sent: set<Packet>)
    requires Inv(s, own) && forall p :: p in sent ==> PacketOk(p, own)
    ensures Inv(s.(sent := s.sent + sent), own)
  {
  }

  lemma EmittedOk(v: View, n: Key, own: map<Key, uint64>, step: Step)
    requires ViewOk(v, n, own)
    ensures forall p :: p in Emitted(v, step) ==> PacketOk(p, own)
  {
    forall p | p in Emitted(v, step) ensures PacketOk(p, own) {
      assert step.Gossip? ==> Owned(own, v.members[step.about]);
      assert Owned(own, v.members[n]);
    }
  }

  lemma EnabledOk(s: State, own: map<Key, uint64>, step: Step)
    requires Inv(s, own) && Enabled(CAREFUL, s, step)
    ensures ViewOk(s.views[step.node], step.node, own) && StepOk(s.views[step.node], step.node, own, step)
  {
  }

  /** Every step keeps the invariant, and no node's own incarnation ever goes back. */
  lemma StepKeepsInv(s: State, own: map<Key, uint64>, step: Step) returns (own': map<Key, uint64>)
    requires Inv(s, own) && Enabled(CAREFUL, s, step)
    ensures Inv(After(s, step), own') && Advances(own, own')
  {
    var n := step.node;
    var v := s.views[n];
    EnabledOk(s, own, step);
    ViewStepOk(v, n, own, step);
    var w := ViewAfter(v, step);
    own' := Bump(own, n, w);
    var sent := Emitted(v, step);
    EmittedOk(v, n, own, step);
    SendOk(s, own, sent);
    var t := s.(sent := s.sent + sent);
    ReplaceView(t, own, n, w, own');
    assert After(s, step) == t.(views := t.views[n := w]);
  }

  // ---------------------------------------------------------------- runs

  datatype Run = Start(state: State) | Extend(prefix: Run, step: Step, state: State)

  ghost predicate IsRun(rules: Rules, r: Run) {
    match r
    case Start(s) => Init(s)
    case Extend(p, step, s) => IsRun(rules, p) && Enabled(rules, p.state, step) && s == After(p.state, step)
  }

  ghost predicate Earlier(p: Run, r: Run) {
    p == r || (r.Extend? && Earlier(p, r.prefix))
  }

  /** In every reachable state the invariant holds for the incarnations the nodes have reached. */
  lemma {:induction false} RunKeepsInv(r: Run) returns (own: map<Key, uint64>)
    requires IsRun(CAREFUL, r)
    ensures Inv(r.state, own)
  {
    match r
    case Start(s) =>
      own := map n | n in s.views :: s.views[n].members[n].incarnation;
    case Extend(p, step, _) =>
      own := RunKeepsInv(p);
      own := StepKeepsInv(p.state, own, step);
  }

  /** Node x's record of itself. */
  ghost predicate SelfRecord(s: State, x: Key, m: Member) {
    x in s.views && x in s.views[x].members && s.views[x].members[x] == m
  }

  /** Incarnation ownership: in every reachable state no table entry and no
      record in flight is ahead of the node it is about, and every node's
      record of itself says Alive. */
  lemma IncarnationOwnership(r: Run, n: Key, x: Key, m: Member)
    requires IsRun(CAREFUL, r) && SelfRecord(r.state, x, m)
    ensures m.status == Alive
    ensures n in r.state.views && x in r.state.views[n].members ==>
              r.state.views[n].members[x].incarnation <= m.incarnation
    ensures forall p :: p in r.state.sent && p.record.nodeId == x ==> p.record.incarnation <= m.incarnation
  {
    var own := RunKeepsInv(r);
    assert ViewOk(r.state.views[x], x, own);
    if n in r.state.views && x in r.state.views[n].members {
      assert ViewOk(r.state.views[n], n, own);
      assert Owned(own, r.state.views[n].members[x]);
    }
    forall p | p in r.state.sent && p.record.nodeId == x ensures p.record.incarnation <= m.incarnation {
      assert PacketOk(p, own);
    }
  }

  /** Along a run a node's own incarnation never goes back. */
  lemma {:induction false} OwnNeverDecreases(p: Run, r: Run, a: map<Key, uint64>) returns (b: map<Key, uint64>)
    requires IsRun(CAREFUL, r) && Earlier(p, r) && Inv(p.state, a)
    ensures Inv(r.state, b) && Advances(a, b)
  {
    if p == r {
      b := a;
    } else {
      b := OwnNeverDecreases(p, r.prefix, a);
      b := StepKeepsInv(r.prefix.state, b, r.step);
    }
  }

  /** Processing an accusation against itself raises the victim's incarnation above it. */
  lemma AccusationIsRefuted(v: View, accusation: Member, own: map<Key, uint64>)
    requires ViewOk(v, v.localId, own) && accusation.nodeId == v.localId && SameCluster(v, accusation)
    requires accusation.status == Suspect || accusation.status == Dead
    requires accusation.incarnation < MAX_UINT64
    ensures var w := MergeMember(v, accusation);
            v.localId in w.members && w.members[v.localId].incarnation > accusation.incarnation
  {
  }

  /** Once x has processed an accusation, its own record supersedes that
      accusation from then on. */
  lemma RefutationSticks(before: Run, p: Run, r: Run, accusation: Member, m: Member)
    requires IsRun(CAREFUL, r) && Earlier(p, r) && IsRun(CAREFUL, p) && p.Extend? && p.prefix == before
    requires p.step.Deliver? && p.step.packet.record == accusation && accusation.nodeId == p.step.node
    requires accusation.status == Suspect || accusation.status == Dead
    requires p.step.node in before.state.views && SameCluster(before.state.views[p.step.node], accusation)
    requires SelfRecord(r.state, p.step.node, m)
    ensures m.status == Alive && Supersedes(m, accusation)
  {
    var x := accusation.nodeId;
    var own := RunKeepsInv(before);
    assert ViewOk(before.state.views[x], x, own);
    assert accusation.incarnation <= own[x] by { assert PacketOk(p.step.packet, own); }
    AccusationIsRefuted(before.state.views[x], accusation, own);
    var a := StepKeepsInv(before.state, own, p.step);
    assert ViewOk(p.state.views[x], x, a);
    var b := OwnNeverDecreases(p, r, a);
    assert ViewOk(r.state.views[x], x, b);
  }

  /** A table that still believes an accusation drops it when it merges a record that supersedes it. */
  lemma SupersedingClears(v: View, accusation: Member, own: Member)
    requires v.localId in v.members && own.nodeId in v.members && own.nodeId != v.localId && SameCluster(v, own)
    requires v.members[own.nodeId].incarnation == accusation.incarnation
             && v.members[own.nodeId].status == accusation.status
    requires own.status == Alive && Supersedes(own, accusation)
    ensures own.nodeId in MergeMember(v, own).members
    ensures MergeMember(v, own).members[own.nodeId].status == Alive
    ensures MergeMember(v, own).members[own.nodeId].incarnation == own.incarnation
  {
  }

  // ---------------------------------------------------------------- exactly when ownership holds

  /** Nobody's table and nothing in flight is ahead of the node it is about. */
  ghost predicate Ownership(s: State) {
    forall x, m :: SelfRecord(s, x, m) ==>
      && m.status == Alive
      && (forall n :: n in s.views && x in s.views[n].members ==> s.views[n].members[x].incarnation <= m.incarnation)
      && (forall p :: p in s.sent && p.record.nodeId == x ==> p.record.incarnation <= m.incarnation)
  }

  /** The table of a node that knows only itself. */
  function Alone(id: Key, incarnation: uint64): View {
    View([9], id, map[id := Member(id, [9], [], Alive, incarnation, 1, 0)], 1)
  }

  ghost predicate Ahead(s: State, n: Key, x: Key) {
    && x in s.views && x in s.views[x].members && n in s.views && x in s.views[n].members
    && s.views[n].members[x].incarnation > s.views[x].members[x].incarnation
  }

  /** A node that reports itself, moves on and reports again. */
  lemma ReportsTwice(rules: Rules, a: Key, b: Key) returns (r: Run)
    requires a != b
    ensures var v, w := Alone(a, 0), RefuteLocal(Alone(a, 0));
            && IsRun(rules, r)
            && r.state.views == map[a := w, b := Alone(b, 0)]
            && r.state.sent == {SelfReport(v.members[a]), SelfReport(w.members[a])}
  {
    var s0 := State(map[a := Alone(a, 0), b := Alone(b, 0)], {});
    var s1 := After(s0, Report(a));
    var s2 := After(s1, Proactive(a));
    var s3 := After(s2, Report(a));
    var r2 := Extend(Extend(Start(s0), Report(a), s1), Proactive(a), s2);
    assert IsRun(rules, r2);
    r := Extend(r2, Report(a), s3);
  }

  /** A node installs an old report of its own as the answer of a seed. */
  lemma ConfirmingLowers(rules: Rules, before: Run, a: Key, b: Key, p: Packet) returns (r: Run)
    requires rules.selfProbe && IsRun(rules, before) && a != b && a in before.state.views && b in before.state.views
    requires WellFormed(before.state.views[a], a) && a in before.state.views[b].members
    requires p in before.state.sent && p.SelfReport? && p.record.nodeId == a
             && SameCluster(before.state.views[a], p.record)
    requires before.state.views[b].members[a].incarnation > p.record.incarnation
    ensures IsRun(rules, r) && Ahead(r.state, b, a)
  {
    r := Extend(before, Confirm(a, p), After(before.state, Confirm(a, p)));
  }

  /** The second report reaches another node; then the first one is confirmed. */
  lemma SelfProbeFallsBehind(rules: Rules, a: Key, b: Key) returns (r: Run)
    requires rules.selfProbe && a != b
    ensures IsRun(rules, r) && Ahead(r.state, b, a)
  {
    var reported := ReportsTwice(rules, a, b);
    var first, second := SelfReport(Alone(a, 0).members[a]), SelfReport(RefuteLocal(Alone(a, 0)).members[a]);
    var heard := Extend(reported, Deliver(b, second), After(reported.state, Deliver(b, second)));
    r := ConfirmingLowers(rules, heard, a, b, first);
  }

  /** A node at the maximum incarnation that clears suspicion starts again at zero. */
  lemma OverflowFallsBehind(rules: Rules, a: Key, b: Key) returns (r: Run)
    requires rules.overflow && a != b
    ensures IsRun(rules, r) && Ahead(r.state, b, a)
  {
    var s0 := State(map[a := Alone(a, MAX_UINT64), b := Alone(b, 0)], {});
    var report := SelfReport(s0.views[a].members[a]);
    var s1 := After(s0, Report(a));
    var s2 := After(s1, Deliver(b, report));
    var s3 := After(s2, Proactive(a));
    var r2 := Extend(Extend(Start(s0), Report(a), s1), Deliver(b, report), s2);
    assert IsRun(rules, r2);
    assert s2.views[b].members[a].incarnation == MAX_UINT64;
    r := Extend(r2, Proactive(a), s3);
  }

  lemma AheadBreaksOwnership(s: State, n: Key, x: Key)
    requires Ahead(s, n, x)
    ensures !Ownership(s)
  {
    assert SelfRecord(s, x, s.views[x].members[x]);
  }

  /** Incarnation ownership holds in all runs exactly when no node can probe
      itself and no incarnation can overflow. */
  lemma OwnershipIff(rules: Rules)
    ensures (forall r :: IsRun(rules, r) ==> Ownership(r.state)) <==> !rules.selfProbe && !rules.overflow
  {
    if rules.selfProbe {
      var r := SelfProbeFallsBehind(rules, [1], [2]);
      AheadBreaksOwnership(r.state, [2], [1]);
    } else if rules.overflow {
      var r := OverflowFallsBehind(rules, [1], [2]);
      AheadBreaksOwnership(r.state, [2], [1]);
    } else {
      forall r | IsRun(rules, r) ensures Ownership(r.state) {
        forall x, m | SelfRecord(r.state, x, m)
          ensures m.status == Alive
          ensures forall n :: n in r.state.views && x in r.state.views[n].members ==>
                    r.state.views[n].members[x].incarnation <= m.incarnation
          ensures forall p :: p in r.state.sent && p.record.nodeId == x ==> p.record.incarnation <= m.incarnation
        {
          forall n ensures n in r.state.views && x in r.state.views[n].members ==>
                     r.state.views[n].members[x].incarnation <= m.incarnation {
            IncarnationOwnership(r, n, x, m);
          }
          IncarnationOwnership(r, x, x, m);
        }
      }
    }
  }
}
