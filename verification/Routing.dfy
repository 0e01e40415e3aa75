/** Whole runs of a cluster whose nodes pull each other's routing tables, possibly
    stale ones, and merge split or merge proposals computed from tables they held. */
module Routing {
  import opened Keys
  import opened Ring
  import opened RingLaws
  import opened RingTable

  // ---------------------------------------------------------------- the information order

  /** At key k, map a knows at least as much as m: a higher generation, or the same routing. */
  ghost predicate DominatesAt(a: RangeMap, m: RangeMap, k: Key)
    requires Validate(a) && Validate(m)
  {
    || At(a, k).generation > At(m, k).generation
    || (At(a, k).generation == At(m, k).generation && SameRoute(At(a, k), At(m, k)))
  }

  ghost predicate Dominates(a: RangeMap, m: RangeMap)
    requires Validate(a) && Validate(m)
  {
    forall k: Key :: DominatesAt(a, m, k)
  }

  lemma DominatesTransitive(a: RangeMap, b: RangeMap, c: RangeMap)
    requires Validate(a) && Validate(b) && Validate(c) && Dominates(a, b) && Dominates(b, c)
    ensures Dominates(a, c)
  {
    forall k: Key ensures DominatesAt(a, c, k) {
      assert DominatesAt(a, b, k) && DominatesAt(b, c, k);
    }
  }

  /** A merge dominates both of its inputs. */
  lemma MergeIsUpperBound(m: RangeMap, n: RangeMap, a: RangeMap)
    requires Validate(m) && Validate(n) && IsMerge(m, n, a)
    ensures Dominates(a, m) && Dominates(a, n)
  {
    forall k: Key ensures DominatesAt(a, m, k) && DominatesAt(a, n, k) {
      MergedAt(m, n, a, k);
      GenerationLaw(m, n, k);
    }
  }

  /** Pulling a dominating map leads to its routing. */
  lemma PullingDominatorAdoptsRouting(n: RangeMap, a: RangeMap, b: RangeMap)
    requires Validate(n) && Validate(a) && Dominates(a, n) && IsMerge(n, a, b)
    ensures SameRouting(b, a)
  {
    forall k: Key ensures SameRoute(At(b, k), At(a, k)) {
      assert DominatesAt(a, n, k);
      MergedAt(n, a, b, k);
    }
  }

  /** Pulling a dominated map changes no routing. */
  lemma PullingDominatedKeepsRouting(n: RangeMap, a: RangeMap, b: RangeMap)
    requires Validate(n) && Validate(a) && Dominates(n, a) && IsMerge(n, a, b)
    ensures SameRouting(b, n)
  {
    forall k: Key ensures SameRoute(At(b, k), At(n, k)) {
      assert DominatesAt(n, a, k);
      MergedAt(n, a, b, k);
    }
  }

  lemma MutualDominanceIsAgreement(a: RangeMap, b: RangeMap)
    requires Validate(a) && Validate(b) && Dominates(a, b) && Dominates(b, a)
    ensures SameRouting(a, b)
  {
    forall k: Key ensures SameRoute(At(a, k), At(b, k)) {
      assert DominatesAt(a, b, k) && DominatesAt(b, a, k);
    }
  }

  // ---------------------------------------------------------------- the state machine

  /** The table of every node and all tables it ever held; a peer may still
      receive any of the latter. */
  datatype Cluster = Cluster(tables: map<Key, RangeMap>, history: map<Key, set<RangeMap>>)

  datatype Step =
    | Pull(node: Key, peer: Key, snapshot: RangeMap)
    | Propose(node: Key, base: RangeMap, proposal: RangeMap)

  ghost predicate Init(c: Cluster) {
    && c.tables.Keys == c.history.Keys
    && forall x :: x in c.tables ==> Validate(c.tables[x]) && c.history[x] == {c.tables[x]}
  }

  /** Proposals are handed to the merge as they are; a malformed one is rejected there. */
  ghost function Incoming(step: Step): RangeMap {
    match step
    case Pull(_, _, snapshot) => snapshot
    case Propose(_, _, proposal) => proposal
  }

  ghost predicate Enabled(c: Cluster, step: Step) {
    && step.node in c.tables
    && match step
       case Pull(_, peer, snapshot) => peer in c.history && snapshot in c.history[peer]
       case Propose(node, base, _) => node in c.history && base in c.history[node]
  }

  ghost predicate Next(c: Cluster, c': Cluster, step: Step) {
    && Enabled(c, step)
    && step.node in c.history && step.node in c'.tables
    && Validate(c.tables[step.node])
    && (exists changed :: TableMerge(c.tables[step.node], Incoming(step), c'.tables[step.node], changed))
    && c'.tables == c.tables[step.node := c'.tables[step.node]]
    && c'.history == c.history[step.node := c.history[step.node] + {c'.tables[step.node]}]
  }

  /** A run: an initial state, extended step by step. */
  datatype Run = Start(state: Cluster) | Extend(prefix: Run, step: Step, state: Cluster)

  ghost predicate IsRun(r: Run) {
    match r
    case Start(c) => Init(c)
    case Extend(p, step, c) => IsRun(p) && Next(p.state, c, step)
  }

  /** p is r at an earlier (or the same) moment. */
  ghost predicate Earlier(p: Run, r: Run) {
    p == r || (r.Extend? && Earlier(p, r.prefix))
  }

  ghost predicate Good(c: Cluster) {
    && c.tables.Keys == c.history.Keys
    && (forall x :: x in c.tables ==> Validate(c.tables[x]))
    && (forall x, m :: x in c.history && m in c.history[x] ==> Validate(m) && Dominates(c.tables[x], m))
  }

  /** The table of the stepping node, before and after. */
  lemma TableIsMonotone(m: RangeMap, n: RangeMap, a: RangeMap, changed: bool)
    requires Validate(m) && TableMerge(m, n, a, changed)
    ensures Validate(a) && Dominates(a, m) && (Canonical(m) ==> Canonical(a))
  {
    if Validate(n) && !TieAtMaximum(m, n) {
      MergeIsUpperBound(m, n, a);
    }
  }

  lemma StepIsMonotone(c: Cluster, c': Cluster, step: Step, x: Key)
    requires Good(c) && Next(c, c', step) && x in c.tables
    ensures x in c'.tables && Validate(c'.tables[x]) && Dominates(c'.tables[x], c.tables[x])
    ensures Canonical(c.tables[x]) ==> Canonical(c'.tables[x])
  {
    if x == step.node {
      var changed :| TableMerge(c.tables[x], Incoming(step), c'.tables[x], changed);
      TableIsMonotone(c.tables[x], Incoming(step), c'.tables[x], changed);
    }
  }

  lemma HistoryIsKept(c: Cluster, c': Cluster, step: Step, x: Key, m: RangeMap)
    requires Good(c) && Next(c, c', step) && x in c'.history && m in c'.history[x]
    ensures x in c'.tables && Validate(c'.tables[x]) && Validate(m) && Dominates(c'.tables[x], m)
  {
    StepIsMonotone(c, c', step, x);
    if m in c.history[x] {
      DominatesTransitive(c'.tables[x], c.tables[x], m);
    }
  }

  lemma NextKeepsGood(c: Cluster, c': Cluster, step: Step)
    requires Good(c) && Next(c, c', step)
    ensures Good(c') && c'.tables.Keys == c.tables.Keys
  {
    forall x | x in c'.tables ensures Validate(c'.tables[x]) {
      StepIsMonotone(c, c', step, x);
    }
    forall x, m | x in c'.history && m in c'.history[x] ensures Validate(m) && Dominates(c'.tables[x], m) {
      HistoryIsKept(c, c', step, x, m);
    }
  }

  lemma {:induction false} RunIsGood(r: Run)
    requires IsRun(r)
    ensures Good(r.state)
  {
    match r
    case Start(c) =>
    case Extend(p, step, c) =>
      RunIsGood(p);
      NextKeepsGood(p.state, c, step);
  }

  /** A node's table only ever gains information. */
  lemma {:induction false} RunDominates(p: Run, r: Run, x: Key)
    requires IsRun(r) && Earlier(p, r) && x in r.state.tables
    ensures IsRun(p) && x in p.state.tables
    ensures Validate(p.state.tables[x]) && Validate(r.state.tables[x])
    ensures Dominates(r.state.tables[x], p.state.tables[x])
    ensures Canonical(p.state.tables[x]) ==> Canonical(r.state.tables[x])
  {
    if p == r {
      RunIsGood(r);
    } else {
      RunIsGood(r.prefix);
      StepIsMonotone(r.prefix.state, r.state, r.step, x);
      RunDominates(p, r.prefix, x);
      DominatesTransitive(r.state.tables[x], r.prefix.state.tables[x], p.state.tables[x]);
    }
  }

  /** The epoch is held by a range that lookups can reach. */
  ghost predicate EpochReachable(m: RangeMap, e: uint64)
    requires Validate(m)
  {
    exists k: Key :: At(m, k).generation == e
  }

  lemma EpochMonotone(m: RangeMap, a: RangeMap, e: uint64, e': uint64)
    requires Validate(a) && Validate(m) && Dominates(a, m) && EpochReachable(m, e) && IsEpoch(a, e')
    ensures e <= e'
  {
    var k: Key :| At(m, k).generation == e;
    assert DominatesAt(a, m, k);
  }

  lemma PartitionEpochReachable(m: RangeMap, e: uint64)
    requires Canonical(m) && IsEpoch(m, e)
    ensures EpochReachable(m, e)
  {
    var i :| 0 <= i < |m| && m[i].generation == e;
    StartIndex(m, i);
    assert At(m, m[i].start) == m[i];
  }

  /** Merging can lower the epoch of a validated map, namely when the epoch
      sits in a hidden range, and in no other case. */
  lemma EpochNeverFallsIff(m: RangeMap, e: uint64)
    requires Validate(m) && IsEpoch(m, e)
    ensures (forall n, a, e' :: Validate(n) && IsMerge(m, n, a) && IsEpoch(a, e') ==> e <= e') <==> EpochReachable(m, e)
  {
    if EpochReachable(m, e) {
      forall n, a, e' | Validate(n) && IsMerge(m, n, a) && IsEpoch(a, e') ensures e <= e' {
        MergeIsUpperBound(m, n, a);
        EpochMonotone(m, a, e, e');
      }
    } else {
      SelfMerge(m);
      var t := Reachable(m);
      var e' := MaxGeneration(t);
      PartitionEpochReachable(t, e');
      var k: Key :| At(t, k).generation == e';
      ReachableAnswersAlike(m, k);
      assert IsMerge(m, m, t) && IsEpoch(t, e') && e' < e;
    }
  }

  ghost function MaxGeneration(m: RangeMap): (e: uint64)
    ensures IsEpoch(m, e)
  {
    if m == [] then 0
    else
      var rest := MaxGeneration(m[..|m| - 1]);
      if m[|m| - 1].generation > rest then m[|m| - 1].generation else rest
  }

  /** Whole-run safety: at every moment every node routes every key to somebody,
      and neither the generation of a key nor the epoch ever goes back. */
  lemma RunIsSafe(p: Run, r: Run, x: Key, e: uint64, e': uint64)
    requires IsRun(r) && Earlier(p, r) && x in r.state.tables
    ensures x in p.state.tables && Validate(p.state.tables[x]) && Validate(r.state.tables[x])
    ensures forall k: Key :: At(r.state.tables[x], k).replicas != []
    ensures forall k: Key :: At(p.state.tables[x], k).generation <= At(r.state.tables[x], k).generation
    ensures Canonical(p.state.tables[x]) ==> Canonical(r.state.tables[x])
    ensures IsEpoch(p.state.tables[x], e) && EpochReachable(p.state.tables[x], e) && IsEpoch(r.state.tables[x], e') ==>
              e <= e'
    ensures Canonical(p.state.tables[x]) && IsEpoch(p.state.tables[x], e) && IsEpoch(r.state.tables[x], e') ==> e <= e'
  {
    RunDominates(p, r, x);
    var m, a := p.state.tables[x], r.state.tables[x];
    forall k: Key ensures At(m, k).generation <= At(a, k).generation {
      assert DominatesAt(a, m, k);
    }
    if Canonical(m) && IsEpoch(m, e) {
      PartitionEpochReachable(m, e);
    }
    if IsEpoch(m, e) && EpochReachable(m, e) && IsEpoch(a, e') {
      EpochMonotone(m, a, e, e');
    }
  }

  /** Agreement: whenever a node has pulled a map that dominates its own table,
      it routes every key as that map does, until somebody knows something newer. */
  lemma PullLeadsToAgreement(r: Run)
    requires IsRun(r) && r.Extend? && r.step.Pull?
    requires Validate(r.step.snapshot) && Validate(r.prefix.state.tables[r.step.node])
    requires !TieAtMaximum(r.prefix.state.tables[r.step.node], r.step.snapshot)
    ensures Validate(r.state.tables[r.step.node])
    ensures Dominates(r.state.tables[r.step.node], r.step.snapshot)
    ensures Dominates(r.step.snapshot, r.prefix.state.tables[r.step.node]) ==>
              SameRouting(r.state.tables[r.step.node], r.step.snapshot)
  {
    var n, a, b := r.prefix.state.tables[r.step.node], r.step.snapshot, r.state.tables[r.step.node];
    MergeIsUpperBound(n, a, b);
    if Dominates(a, n) {
      PullingDominatorAdoptsRouting(n, a, b);
    }
  }

  /** What a node has pulled, its table dominates from then on. */
  lemma PulledIsDominated(q: Run, r: Run)
    requires IsRun(r) && Earlier(q, r) && IsRun(q) && q.Extend? && q.step.Pull? && q.step.node in r.state.tables
    requires Validate(q.step.snapshot) && Validate(q.prefix.state.tables[q.step.node])
    requires !TieAtMaximum(q.prefix.state.tables[q.step.node], q.step.snapshot)
    ensures Validate(r.state.tables[q.step.node]) && Dominates(r.state.tables[q.step.node], q.step.snapshot)
  {
    RunDominates(q, r, q.step.node);
    PullLeadsToAgreement(q);
    DominatesTransitive(r.state.tables[q.step.node], q.state.tables[q.step.node], q.step.snapshot);
  }

  // ---------------------------------------------------------------- agreement of the whole cluster

  /** t knows all that hub knows and routes like it. */
  ghost predicate Follows(t: RangeMap, hub: RangeMap)
    requires Validate(hub)
  {
    Validate(t) && Dominates(t, hub) && SameRouting(t, hub)
  }

  /** t knows nothing that hub does not know, or follows it. */
  ghost predicate Covered(t: RangeMap, hub: RangeMap)
    requires Validate(hub)
  {
    Validate(t) && (Dominates(hub, t) || Follows(t, hub))
  }

  /** Every table that anybody holds or may still receive is covered by hub. */
  ghost predicate Surveyed(c: Cluster, hub: RangeMap)
    requires Validate(hub)
  {
    && (forall x :: x in c.tables ==> Covered(c.tables[x], hub))
    && (forall x, m :: x in c.history && m in c.history[x] ==> Covered(m, hub))
  }

  /** A pull that involves a follower of hub: its outcome follows hub. */
  lemma FollowersSpread(t: RangeMap, s: RangeMap, b: RangeMap, hub: RangeMap)
    requires Validate(hub) && Covered(t, hub) && Covered(s, hub) && IsMerge(t, s, b)
    requires Follows(t, hub) || Follows(s, hub)
    ensures Follows(b, hub)
  {
    MergeIsUpperBound(t, s, b);
    if Follows(t, hub) {
      DominatesTransitive(b, t, hub);
      if Follows(s, hub) {
        SameRoutingThrough(t, hub, s);
        RoutingIsStable(t, s, b);
      } else {
        DominatesTransitive(t, hub, s);
        PullingDominatedKeepsRouting(t, s, b);
      }
      SameRoutingThrough(b, t, hub);
    } else {
      DominatesTransitive(b, s, hub);
      DominatesTransitive(s, hub, t);
      PullingDominatorAdoptsRouting(t, s, b);
      SameRoutingThrough(b, s, hub);
    }
  }

  lemma PullSpreads(t: RangeMap, s: RangeMap, b: RangeMap, hub: RangeMap)
    requires Validate(hub) && Covered(t, hub) && Covered(s, hub) && (Follows(t, hub) || Follows(s, hub))
    requires exists changed :: TableMerge(t, s, b, changed)
    ensures Covered(b, hub) && (Follows(t, hub) ==> Follows(b, hub)) && (!TieAtMaximum(t, s) ==> Follows(b, hub))
  {
    if !TieAtMaximum(t, s) {
      FollowersSpread(t, s, b, hub);
    }
  }

  lemma SameRoutingThrough(a: RangeMap, b: RangeMap, c: RangeMap)
    requires Validate(a) && Validate(b) && Validate(c)
    requires SameRouting(a, b) && (SameRouting(b, c) || SameRouting(c, b))
    ensures SameRouting(a, c)
  {
    forall k: Key ensures SameRoute(At(a, k), At(c, k)) {
      assert SameRoute(At(a, k), At(b, k));
    }
  }

  /** A pull that only spreads what hub knows: the puller or the snapshot follows hub. */
  ghost predicate Spreads(c: Cluster, step: Step, hub: RangeMap)
    requires Validate(hub)
  {
    step.Pull? && step.node in c.tables && (Follows(c.tables[step.node], hub) || Follows(step.snapshot, hub))
  }

  lemma SpreadStep(c: Cluster, c': Cluster, step: Step, hub: RangeMap)
    requires Validate(hub) && Surveyed(c, hub) && Next(c, c', step) && Spreads(c, step, hub)
    ensures Surveyed(c', hub) && c'.tables.Keys == c.tables.Keys
    ensures forall x :: x in c.tables && Follows(c.tables[x], hub) ==> Follows(c'.tables[x], hub)
    ensures Validate(c.tables[step.node]) && Validate(step.snapshot)
    ensures !TieAtMaximum(c.tables[step.node], step.snapshot) ==> Follows(c'.tables[step.node], hub)
  {
    var t, s, b := c.tables[step.node], step.snapshot, c'.tables[step.node];
    PullSpreads(t, s, b, hub);
  }

  /** From p to r, only what hub knows is spread. */
  ghost predicate Spreading(p: Run, r: Run, hub: RangeMap)
    requires Validate(hub)
  {
    p == r || (r.Extend? && Spreading(p, r.prefix, hub) && Spreads(r.prefix.state, r.step, hub))
  }

  /** Agreement of any number of nodes: let hub be a table that dominates all
      tables, such as that of a node which has pulled everybody else's. However
      nodes then pull from hub's holder and from each other, stale snapshots
      included, a node that once followed hub follows it ever after, so any two
      such nodes route every key alike. */
  lemma {:induction false} ClusterAgrees(p: Run, q: Run, r: Run, hub: RangeMap, x: Key)
    requires IsRun(r) && Validate(hub) && Surveyed(p.state, hub)
    requires Spreading(p, q, hub) && Spreading(q, r, hub)
    requires x in q.state.tables && Follows(q.state.tables[x], hub)
    ensures Surveyed(r.state, hub) && x in r.state.tables && Follows(r.state.tables[x], hub)
  {
    if q != r {
      ClusterAgrees(p, q, r.prefix, hub, x);
      SpreadStep(r.prefix.state, r.state, r.step, hub);
    } else if p != q {
      SurveyLasts(p, q, hub);
    }
  }

  lemma {:induction false} SurveyLasts(p: Run, r: Run, hub: RangeMap)
    requires IsRun(r) && Validate(hub) && Surveyed(p.state, hub) && Spreading(p, r, hub)
    ensures Surveyed(r.state, hub)
  {
    if p != r {
      SurveyLasts(p, r.prefix, hub);
      SpreadStep(r.prefix.state, r.state, r.step, hub);
    }
  }

  /** A table that dominates every table held has surveyed the cluster. */
  lemma HubSurveys(r: Run, hub: RangeMap)
    requires IsRun(r) && Validate(hub)
    requires forall x :: x in r.state.tables && Validate(r.state.tables[x]) ==> Dominates(hub, r.state.tables[x])
    ensures Surveyed(r.state, hub)
  {
    RunIsGood(r);
    forall x, m | x in r.state.history && m in r.state.history[x] ensures Covered(m, hub) {
      DominatesTransitive(hub, r.state.tables[x], m);
    }
  }
}
