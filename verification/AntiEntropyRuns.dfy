/** Whole runs of repair rounds between the replicas of a cluster. */
module AntiEntropyRuns {
  import opened Keys
  import opened Versioning
  import opened Merkle
  import opened Repair

  type Cluster = map<Key, Rows>

  /** One round between two replicas. A round may be cut short: the keys in
      pulled and pushed are those whose repair was actually written. */
  datatype Round = Round(local: Key, peer: Key, pulled: set<Key>, pushed: set<Key>)

  ghost predicate Next(c: Cluster, c': Cluster, r: Round) {
    && r.local in c && r.peer in c && r.local != r.peer
    && c'.Keys == c.Keys
    && (forall n :: n in c && n != r.local && n != r.peer ==> c'[n] == c[n])
    && (forall k: Key :: Look(c'[r.local], k) ==
          if k in r.pulled then FixLocal(Look(c[r.local], k), Look(c[r.peer], k)) else Look(c[r.local], k))
    && (forall k: Key :: Look(c'[r.peer], k) ==
          if k in r.pushed then FixPeer(Look(c[r.local], k), Look(c[r.peer], k)) else Look(c[r.peer], k))
  }

  /** Whatever a repair walk does, complete or not, is such a round. */
  lemma RepairIsRound(c: Cluster, c': Cluster, local: Key, peer: Key, owns: Key -> bool)
    requires local in c && peer in c && local != peer
    requires local in c' && peer in c' && c' == c[local := c'[local]][peer := c'[peer]]
    requires OnlyRepairs(owns, c[local], c[peer], c'[local], c'[peer])
    ensures var pulled := set k | k in c'[local] && Look(c'[local], k) != Look(c[local], k);
            var pushed := set k | k in c'[peer] && Look(c'[peer], k) != Look(c[peer], k);
            Next(c, c', Round(local, peer, pulled, pushed))
  {
    var l0, p0, l1, p1 := c[local], c[peer], c'[local], c'[peer];
    var pulled := set k | k in l1 && Look(l1, k) != Look(l0, k);
    var pushed := set k | k in p1 && Look(p1, k) != Look(p0, k);
    forall k: Key
      ensures Look(l1, k) == if k in pulled then FixLocal(Look(l0, k), Look(p0, k)) else Look(l0, k)
      ensures Look(p1, k) == if k in pushed then FixPeer(Look(l0, k), Look(p0, k)) else Look(p0, k)
    {
      assert Moved(owns, l0, p0, l1, p1, k);
    }
  }

  /** All versions of k that some replica holds. */
  ghost function Held(c: Cluster, k: Key): set<Envelope> {
    set n | n in c && k in c[n] :: c[n][k]
  }

  /** e is held and nothing held supersedes it. */
  ghost predicate Maximal(held: set<Envelope>, e: Envelope) {
    e in held && forall f :: f in held ==> Relate(e.clock, f.clock) != Before
  }

  ghost function Superseding(held: set<Envelope>, e: Envelope): set<Envelope> {
    set f | f in held && Relate(e.clock, f.clock) == Before
  }

  /** Whatever is held is covered by something maximal. */
  lemma {:induction false} MaximalAbove(held: set<Envelope>, e: Envelope) returns (m: Envelope)
    requires e in held
    ensures Maximal(held, m) && Leq(e.clock, m.clock)
    decreases Superseding(held, e)
  {
    if Maximal(held, e) {
      m := e;
    } else {
      var f :| f in held && Relate(e.clock, f.clock) == Before;
      forall g | g in held && Relate(f.clock, g.clock) == Before ensures Relate(e.clock, g.clock) == Before {
        BeforeTransitive(e.clock, f.clock, g.clock);
      }
      assert f in Superseding(held, e) && f !in Superseding(held, f);
      m := MaximalAbove(held, f);
      LeqTransitive(e.clock, f.clock, m.clock);
    }
  }

  /** A replica's copy of a key survives a round, or is filled, or is replaced
      by a strictly newer version that the other side holds. */
  ghost predicate CopyKept(before: Copy, after: Copy, held: set<Envelope>) {
    || after == before
    || (&& after.Holds? && after.envelope in held
        && (before.Holds? ==> Relate(before.envelope.clock, after.envelope.clock) == Before))
  }

  lemma RoundKeepsCopies(c: Cluster, c': Cluster, r: Round, n: Key, k: Key)
    requires Next(c, c', r) && n in c
    ensures CopyKept(Look(c[n], k), Look(c'[n], k), Held(c, k))
  {
    assert k in c[r.local] ==> c[r.local][k] in Held(c, k);
    assert k in c[r.peer] ==> c[r.peer][k] in Held(c, k);
  }

  lemma RoundOnlyCopies(c: Cluster, c': Cluster, r: Round, k: Key)
    requires Next(c, c', r)
    ensures Held(c', k) <= Held(c, k)
  {
    forall e | e in Held(c', k) ensures e in Held(c, k) {
      var n :| n in c' && k in c'[n] && c'[n][k] == e;
      RoundKeepsCopies(c, c', r, n, k);
    }
  }

  lemma RoundKeepsMaximal(c: Cluster, c': Cluster, r: Round, k: Key, e: Envelope)
    requires Next(c, c', r) && Maximal(Held(c, k), e)
    ensures Maximal(Held(c', k), e)
  {
    var n :| n in c && k in c[n] && c[n][k] == e;
    RoundKeepsCopies(c, c', r, n, k);
    assert Look(c'[n], k) == Look(c[n], k);
    RoundOnlyCopies(c, c', r, k);
  }

  /** A round neither loses nor invents a maximal version. */
  lemma RoundConservesKnowledge(c: Cluster, c': Cluster, r: Round, k: Key, e: Envelope)
    requires Next(c, c', r)
    ensures Maximal(Held(c', k), e) <==> Maximal(Held(c, k), e)
  {
    if Maximal(Held(c, k), e) {
      RoundKeepsMaximal(c, c', r, k, e);
    } else if Maximal(Held(c', k), e) {
      RoundOnlyCopies(c, c', r, k);
      var f :| f in Held(c, k) && Relate(e.clock, f.clock) == Before;
      var g := MaximalAbove(Held(c, k), f);
      BeforeTransitive(e.clock, f.clock, g.clock);
      RoundKeepsMaximal(c, c', r, k, g);
    }
  }

  // ---------------------------------------------------------------- runs

  datatype Run = Start(state: Cluster) | Extend(prefix: Run, round: Round, state: Cluster)

  ghost predicate IsRun(r: Run) {
    r.Extend? ==> IsRun(r.prefix) && Next(r.prefix.state, r.state, r.round)
  }

  ghost predicate Earlier(p: Run, r: Run) {
    p == r || (r.Extend? && Earlier(p, r.prefix))
  }

  /** Over any run of repair rounds between any pairs of replicas, complete or
      cut short, the maximal versions of every key stay the same. */
  lemma {:induction false} RunConservesKnowledge(p: Run, r: Run, k: Key, e: Envelope)
    requires IsRun(r) && Earlier(p, r)
    ensures Maximal(Held(r.state, k), e) <==> Maximal(Held(p.state, k), e)
  {
    if p != r {
      RunConservesKnowledge(p, r.prefix, k, e);
      RoundConservesKnowledge(r.prefix.state, r.state, r.round, k, e);
    }
  }

  /** Over any run, a replica's copy changes only to a causally newer one; in
      particular a version is never overwritten by a concurrent sibling. */
  lemma {:induction false} RunNeverOverwritesSiblings(p: Run, r: Run, n: Key, k: Key)
    requires IsRun(r) && Earlier(p, r) && n in p.state && k in p.state[n]
    ensures n in r.state && k in r.state[n]
    ensures r.state[n][k] == p.state[n][k] || Relate(p.state[n][k].clock, r.state[n][k].clock) == Before
  {
    if p != r {
      RunNeverOverwritesSiblings(p, r.prefix, n, k);
      RoundKeepsCopies(r.prefix.state, r.state, r.round, n, k);
      var a, b, c := p.state[n][k], r.prefix.state[n][k], r.state[n][k];
      if a != b && b != c {
        BeforeTransitive(a.clock, b.clock, c.clock);
      }
    }
  }
}
