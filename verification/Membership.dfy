/** The SWIM membership table. */
module Membership {
  import opened Keys

  datatype Status = Unknown | Alive | Suspect | Dead

  function Rank(s: Status): int {
    match s
    case Dead => 2
    case Suspect => 1
    case Alive => 0
    case Unknown => -1
  }

  datatype Member = Member(nodeId: Key, clusterId: Key, advertiseAddr: Key, status: Status, incarnation: uint64,
                           membershipEpoch: nat, rangeMapEpoch: uint64)

  /** Higher incarnation wins; at equal incarnation the worse status wins. */
  predicate Supersedes(incoming: Member, current: Member) {
    if incoming.incarnation != current.incarnation then incoming.incarnation > current.incarnation
    else Rank(incoming.status) > Rank(current.status)
  }

  /** What a table holds. */
  datatype View = View(clusterId: Key, localId: Key, members: map<Key, Member>, epoch: nat)

  predicate SameCluster(v: View, m: Member) {
    m.clusterId == [] || m.clusterId == v.clusterId
  }

  function Install(v: View, m: Member): View {
    v.(members := v.members[m.nodeId := m.(membershipEpoch := v.epoch + 1)], epoch := v.epoch + 1)
  }

  /** The 64-bit successor. */
  function NextIncarnation(i: uint64): uint64 {
    if i == MAX_UINT64 then 0 else i + 1
  }

  function Refute(v: View, accusation: Member): View
    requires v.localId in v.members
  {
    var local := v.members[v.localId];
    if (accusation.status != Suspect && accusation.status != Dead) || accusation.incarnation < local.incarnation then v
    else Install(v, local.(incarnation := NextIncarnation(accusation.incarnation), status := Alive))
  }

  function MergeMember(v: View, record: Member): View
    requires v.localId in v.members
  {
    if !SameCluster(v, record) then v
    else
      var incoming := record.(clusterId := v.clusterId);
      if incoming.nodeId == v.localId then Refute(v, incoming)
      else if incoming.nodeId !in v.members then Install(v, incoming)
      else
        var current := v.members[incoming.nodeId];
        if Supersedes(incoming, current) then
          Install(v, if current.rangeMapEpoch > incoming.rangeMapEpoch
                     then incoming.(rangeMapEpoch := current.rangeMapEpoch) else incoming)
        else if incoming.rangeMapEpoch > current.rangeMapEpoch then
          Install(v, current.(rangeMapEpoch := incoming.rangeMapEpoch))
        else v
  }

  function UpsertMember(v: View, record: Member): View {
    if !SameCluster(v, record) then v else Install(v, record.(clusterId := v.clusterId))
  }

  /** A local verdict on a peer, valid only for the incarnation that was observed. */
  function Condemn(v: View, nodeId: Key, incarnation: uint64, from: Status, into: Status): View {
    if nodeId == v.localId || nodeId !in v.members
       || v.members[nodeId].incarnation != incarnation || v.members[nodeId].status != from then v
    else Install(v, v.members[nodeId].(status := into))
  }

  function RefuteLocal(v: View): View
    requires v.localId in v.members
  {
    var local := v.members[v.localId];
    Install(v, local.(incarnation := NextIncarnation(local.incarnation), status := Alive))
  }

  function PublishEpoch(v: View, epoch: uint64): View
    requires v.localId in v.members
  {
    Install(v, v.members[v.localId].(rangeMapEpoch := epoch))
  }

  /** The table itself. */
  class Table {
    const clusterId: Key
    const localId: Key
    var members: map<Key, Member>
    var epoch: nat

    function AsView(): View
      reads this
    {
      View(clusterId, localId, members, epoch)
    }

    ghost predicate Valid()
      reads this
    {
      localId in members && forall x :: x in members ==> members[x].nodeId == x
    }

    constructor (clusterId: Key, local: Member)
      ensures Valid() && this.clusterId == clusterId && localId == local.nodeId
      ensures AsView() == Install(View(clusterId, local.nodeId, map[], 0),
                                  local.(status := if local.status == Unknown then Alive else local.status,
                                         clusterId := clusterId))
    {
      var m := local;
      if m.status == Unknown {
        m := m.(status := Alive);
      }
      m := m.(clusterId := clusterId);
      this.clusterId, localId := clusterId, local.nodeId;
      epoch := 1;
      members := map[m.nodeId := m.(membershipEpoch := 1)];
    }

    method Set(m: Member)
      modifies this
      ensures AsView() == Install(old(AsView()), m)
    {
      epoch := epoch + 1;
      members := members[m.nodeId := m.(membershipEpoch := epoch)];
    }

    method Upsert(record: Member) returns (ok: bool)
      requires Valid()
      modifies this
      ensures Valid() && AsView() == UpsertMember(old(AsView()), record) && ok == SameCluster(old(AsView()), record)
    {
      if record.clusterId != [] && record.clusterId != clusterId {
        return false;
      }
      Set(record.(clusterId := clusterId));
      return true;
    }

    method Merge(record: Member) returns (changed: bool)
      requires Valid()
      modifies this
      ensures Valid() && AsView() == MergeMember(old(AsView()), record)
      ensures changed <==> AsView() != old(AsView())
    {
      if record.clusterId != [] && record.clusterId != clusterId {
        return false;
      }
      var incoming := record.(clusterId := clusterId);
      if incoming.nodeId == localId {
        changed := RefuteAccusation(incoming);
        return;
      }
      if incoming.nodeId !in members {
        Set(incoming);
        return true;
      }
      var current := members[incoming.nodeId];
      if Supersedes(incoming, current) {
        if current.rangeMapEpoch > incoming.rangeMapEpoch {
          incoming := incoming.(rangeMapEpoch := current.rangeMapEpoch);
        }
        Set(incoming);
        return true;
      }
      if incoming.rangeMapEpoch > current.rangeMapEpoch {
        Set(current.(rangeMapEpoch := incoming.rangeMapEpoch));
        return true;
      }
      return false;
    }

    method RefuteAccusation(accusation: Member) returns (changed: bool)
      requires Valid()
      modifies this
      ensures Valid() && AsView() == Refute(old(AsView()), accusation)
      ensures changed <==> AsView() != old(AsView())
    {
      if accusation.status != Suspect && accusation.status != Dead {
        return false;
      }
      var local := members[localId];
      if accusation.incarnation < local.incarnation {
        return false;
      }
      Set(local.(incarnation := NextIncarnation(accusation.incarnation), status := Alive));
      return true;
    }

    method MarkSuspect(nodeId: Key, incarnation: uint64) returns (changed: bool)
      requires Valid()
      modifies this
      ensures Valid() && AsView() == Condemn(old(AsView()), nodeId, incarnation, Alive, Suspect)
      ensures changed <==> AsView() != old(AsView())
    {
      if nodeId == localId || nodeId !in members {
        return false;
      }
      var current := members[nodeId];
      if current.incarnation != incarnation || current.status != Alive {
        return false;
      }
      Set(current.(status := Suspect));
      return true;
    }

    method MarkDead(nodeId: Key, incarnation: uint64) returns (changed: bool)
      requires Valid()
      modifies this
      ensures Valid() && AsView() == Condemn(old(AsView()), nodeId, incarnation, Suspect, Dead)
      ensures changed <==> AsView() != old(AsView())
    {
      if nodeId == localId || nodeId !in members {
        return false;
      }
      var current := members[nodeId];
      if current.incarnation != incarnation || current.status != Suspect {
        return false;
      }
      Set(current.(status := Dead));
      return true;
    }

    /** Come back alive with the next incarnation, unasked. */
    method RefuteLocalSuspect() returns (local: Member)
      requires Valid()
      modifies this
      ensures Valid() && AsView() == RefuteLocal(old(AsView())) && local == members[localId]
      ensures epoch == old(epoch) + 1 && local == old(members[localId]).(status := Alive, membershipEpoch := epoch,
                incarnation := if old(members[localId].incarnation) == MAX_UINT64 then 0
                               else old(members[localId].incarnation) + 1)
      ensures members.Keys == old(members.Keys)
      ensures forall x :: x in members && x != localId ==> members[x] == old(members)[x]
    {
      local := members[localId];
      Set(local.(incarnation := NextIncarnation(local.incarnation), status := Alive));
      local := members[localId];
    }

    /** The epoch is taken as it is, even if it is lower. */
    method SetLocalRangeMapEpoch(rangeMapEpoch: uint64) returns (local: Member)
      requires Valid()
      modifies this
      ensures Valid() && AsView() == PublishEpoch(old(AsView()), rangeMapEpoch) && local == members[localId]
      ensures epoch == old(epoch) + 1
              && local == old(members[localId]).(rangeMapEpoch := rangeMapEpoch, membershipEpoch := epoch)
      ensures members.Keys == old(members.Keys)
      ensures forall x :: x in members && x != localId ==> members[x] == old(members)[x]
    {
      local := members[localId];
      Set(local.(rangeMapEpoch := rangeMapEpoch));
      local := members[localId];
    }
  }

  // ---------------------------------------------------------------- merging is a join

  /** Entries are filed under the node they are about. */
  predicate Keyed(v: View) {
    v.localId in v.members && forall x :: x in v.members ==> v.members[x].nodeId == x
  }

  /** Merge a list of records, one after the other. */
  function MergeAll(v: View, records: seq<Member>): (w: View)
    requires Keyed(v)
    ensures w.localId == v.localId && w.clusterId == v.clusterId && Keyed(w)
  {
    if records == [] then v else MergeMember(MergeAll(v, records[..|records| - 1]), records[|records| - 1])
  }

  /** The claims about node x that v has seen: its own record and those merged. */
  ghost function Claims(v: View, records: seq<Member>, x: Key): set<Member> {
    (if x in v.members then {v.members[x]} else {})
    + set r | r in records && r.nodeId == x && SameCluster(v, r)
  }

  /** m combines the claims: the strongest liveness verdict and, independently,
      the highest range-map epoch. */
  ghost predicate IsJoin(claims: set<Member>, m: Member) {
    && (forall c :: c in claims ==> !Supersedes(c, m) && c.rangeMapEpoch <= m.rangeMapEpoch)
    && (exists c :: c in claims && c.incarnation == m.incarnation && c.status == m.status)
    && (exists c :: c in claims && c.rangeMapEpoch == m.rangeMapEpoch)
  }

  lemma JoinUnique(claims: set<Member>, m: Member, n: Member)
    requires IsJoin(claims, m) && IsJoin(claims, n)
    ensures m.incarnation == n.incarnation && m.status == n.status && m.rangeMapEpoch == n.rangeMapEpoch
  {
  }

  ghost predicate Knows(v: View, x: Key, claims: set<Member>) {
    if x in v.members then IsJoin(claims, v.members[x]) else claims == {}
  }

  /** Merging one record joins it to what is known about its node and leaves the others alone. */
  lemma MergeJoins(v: View, r: Member, x: Key, claims: set<Member>)
    requires Keyed(v) && x != v.localId && Knows(v, x, claims)
    ensures Knows(MergeMember(v, r), x, if r.nodeId == x && SameCluster(v, r) then claims + {r} else claims)
  {
    if r.nodeId == x && SameCluster(v, r) {
      var w, all := MergeMember(v, r), claims + {r};
      assert r in all && x in w.members;
      var m := w.members[x];
      if x in v.members {
        var current := v.members[x];
        JoinOne(claims, current, r, m);
      } else {
        assert all == {r};
      }
    } else {
      assert x in v.members <==> x in MergeMember(v, r).members;
      assert x in v.members ==> MergeMember(v, r).members[x] == v.members[x];
    }
  }

  /** m has the stronger verdict and the higher epoch of current and r. */
  lemma JoinOne(claims: set<Member>, current: Member, r: Member, m: Member)
    requires IsJoin(claims, current)
    requires if Supersedes(r, current) then m.incarnation == r.incarnation && m.status == r.status
             else m.incarnation == current.incarnation && m.status == current.status
    requires m.rangeMapEpoch ==
             if r.rangeMapEpoch > current.rangeMapEpoch then r.rangeMapEpoch else current.rangeMapEpoch
    ensures IsJoin(claims + {r}, m)
  {
    var all := claims + {r};
    var c :| c in claims && c.incarnation == current.incarnation && c.status == current.status;
    var d :| d in claims && d.rangeMapEpoch == current.rangeMapEpoch;
    assert c in all && d in all && r in all;
  }

  /** After merging any list of records, what the table says about another node
      is the join of all claims about it. */
  lemma {:induction false} MergeAllIsJoin(v: View, records: seq<Member>, x: Key)
    requires Keyed(v) && x != v.localId
    ensures Knows(MergeAll(v, records), x, Claims(v, records, x))
  {
    if records == [] {
      assert Claims(v, records, x) == if x in v.members then {v.members[x]} else {};
    } else {
      var rest, r := records[..|records| - 1], records[|records| - 1];
      MergeAllIsJoin(v, rest, x);
      MergeJoins(MergeAll(v, rest), r, x, Claims(v, rest, x));
      ClaimsStep(v, rest, r, x);
      assert records == rest + [r];
    }
  }

  lemma ClaimsStep(v: View, records: seq<Member>, r: Member, x: Key)
    ensures Claims(v, records + [r], x)
         == if r.nodeId == x && SameCluster(v, r) then Claims(v, records, x) + {r} else Claims(v, records, x)
  {
  }

  /** The outcome does not depend on the order of the records, nor on how often each was delivered. */
  lemma MergeOrderIndependent(v: View, a: seq<Member>, b: seq<Member>, x: Key)
    requires Keyed(v) && x != v.localId && (forall r :: r in a <==> r in b)
    ensures x in MergeAll(v, a).members <==> x in MergeAll(v, b).members
    ensures x in MergeAll(v, a).members ==>
              var m, n := MergeAll(v, a).members[x], MergeAll(v, b).members[x];
              m.incarnation == n.incarnation && m.status == n.status && m.rangeMapEpoch == n.rangeMapEpoch
  {
    MergeAllIsJoin(v, a, x);
    MergeAllIsJoin(v, b, x);
    assert Claims(v, a, x) == Claims(v, b, x);
    if x in MergeAll(v, a).members {
      JoinUnique(Claims(v, a, x), MergeAll(v, a).members[x], MergeAll(v, b).members[x]);
    }
  }

  // ---------------------------------------------------------------- the verdict, in plain terms

  /** What is claimed about x: the record held at first, and the records about x
      that name this cluster or none. */
  ghost predicate Claimed(v: View, records: seq<Member>, x: Key, c: Member) {
    || (x in v.members && c == v.members[x])
    || (c in records && c.nodeId == x && (c.clusterId == [] || c.clusterId == v.clusterId))
  }

  /** Some claim about x with the status, at the incarnation. */
  ghost predicate Says(v: View, records: seq<Member>, x: Key, incarnation: uint64, status: Status) {
    exists c :: Claimed(v, records, x, c) && c.incarnation == incarnation && c.status == status
  }

  /** Of all claims about another node the latest incarnation counts, and there
      the worst status; the range-map epoch is the largest claimed. A node is
      known exactly when there is a claim about it. */
  lemma MergedVerdict(v: View, records: seq<Member>, x: Key)
    requires Keyed(v) && x != v.localId
    ensures x in MergeAll(v, records).members <==> exists c :: Claimed(v, records, x, c)
    ensures x in MergeAll(v, records).members ==>
              var m := MergeAll(v, records).members[x];
              && (forall c :: Claimed(v, records, x, c) ==>
                    c.incarnation <= m.incarnation && c.rangeMapEpoch <= m.rangeMapEpoch)
              && (exists c :: Claimed(v, records, x, c) && c.rangeMapEpoch == m.rangeMapEpoch)
              && Says(v, records, x, m.incarnation, m.status)
              && m.status == (if Says(v, records, x, m.incarnation, Dead) then Dead
                              else if Says(v, records, x, m.incarnation, Suspect) then Suspect
                              else if Says(v, records, x, m.incarnation, Alive) then Alive
                              else Unknown)
  {
    MergeAllIsJoin(v, records, x);
    var claims := Claims(v, records, x);
    assert forall c :: c in claims <==> Claimed(v, records, x, c);
    if claims != {} {
      var c :| c in claims;
      assert Claimed(v, records, x, c);
    }
  }

  /** Only the entry of the record's node can change, and only for a record of this cluster. */
  lemma OthersUntouched(v: View, r: Member, x: Key)
    requires Keyed(v) && (x != r.nodeId || (r.clusterId != [] && r.clusterId != v.clusterId))
    ensures x in MergeMember(v, r).members <==> x in v.members
    ensures x in v.members ==> MergeMember(v, r).members[x] == v.members[x]
    ensures x in UpsertMember(v, r).members <==> x in v.members
    ensures x in v.members ==> UpsertMember(v, r).members[x] == v.members[x]
  {
  }

  /** A record about the node itself matters only as an accusation that is not
      older than its own incarnation; then the node comes back alive with the
      next incarnation, and with nothing else changed. */
  lemma OwnRecord(v: View, r: Member)
    requires Keyed(v) && r.nodeId == v.localId && (r.clusterId == [] || r.clusterId == v.clusterId)
    ensures var own := v.members[v.localId];
            var accused := (r.status == Suspect || r.status == Dead) && r.incarnation >= own.incarnation;
            var next := if r.incarnation == MAX_UINT64 then 0 else r.incarnation + 1;
            && (!accused ==> MergeMember(v, r) == v)
            && (accused ==>
                  && v.localId in MergeMember(v, r).members
                  && MergeMember(v, r).epoch == v.epoch + 1
                  && MergeMember(v, r).members[v.localId] ==
                       Member(own.nodeId, own.clusterId, own.advertiseAddr, Alive, next, v.epoch + 1,
                              own.rangeMapEpoch))
  {
  }

  /** An upserted record is stored as it is, under this cluster. */
  lemma UpsertStores(v: View, r: Member)
    requires r.clusterId == [] || r.clusterId == v.clusterId
    ensures var w := UpsertMember(v, r);
            && w.epoch == v.epoch + 1 && r.nodeId in w.members
            && w.members[r.nodeId] == Member(r.nodeId, v.clusterId, r.advertiseAddr, r.status, r.incarnation,
                                             v.epoch + 1, r.rangeMapEpoch)
  {
  }

  /** A local verdict changes the status of another known node at exactly the
      observed incarnation and status, and nothing else; otherwise nothing changes. */
  lemma CondemnIff(v: View, x: Key, incarnation: uint64, from: Status, into: Status)
    requires Keyed(v)
    ensures var applies := x != v.localId && x in v.members && v.members[x].incarnation == incarnation
                           && v.members[x].status == from;
            var w := Condemn(v, x, incarnation, from, into);
            && (!applies ==> w == v)
            && (applies ==>
                  && w.epoch == v.epoch + 1 && w.members.Keys == v.members.Keys
                  && (forall y :: y in v.members && y != x ==> w.members[y] == v.members[y])
                  && w.members[x] == v.members[x].(status := into, membershipEpoch := v.epoch + 1))
  {
  }
}
