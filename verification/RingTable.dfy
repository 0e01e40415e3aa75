/** The local node's holder of the routing table, and the lookups it serves. */
module RingTable {
  import opened Keys
  import opened Ring

  /** The effect of merging incoming into a held table: an error or a merge
      that changes nothing leaves it alone. */
  ghost predicate TableMerge(before: RangeMap, incoming: RangeMap, after: RangeMap, changed: bool)
    requires Validate(before)
  {
    if Validate(incoming) && !TieAtMaximum(before, incoming)
    then IsMerge(before, incoming, after) && changed == (after != before)
    else after == before && !changed
  }

  ghost predicate IsEpoch(m: RangeMap, epoch: uint64) {
    && (forall i :: 0 <= i < |m| ==> m[i].generation <= epoch)
    && (epoch == 0 || exists i :: 0 <= i < |m| && m[i].generation == epoch)
  }

  /** The interval [start, end) is not empty and one range holds all of its keys. */
  ghost predicate WithinOneRange(m: RangeMap, start: Key, end: Key)
    requires Validate(m)
  {
    && (end == [] || Less(start, end))
    && forall k: Key :: InInterval(start, end, k) ==> IndexAt(m, k) == IndexAt(m, start)
  }

  /** A table is created only from a map that validates. */
  method NewTable(localNodeId: Key, initial: RangeMap) returns (t: Table?)
    ensures t == null <==> !Validate(initial)
    ensures t != null ==> fresh(t) && t.localNodeId == localNodeId && t.rangeMap == initial
  {
    if !Validate(initial) {
      return null;
    }
    t := new Table(localNodeId, initial);
  }

  class Table {
    const localNodeId: Key
    var rangeMap: RangeMap

    constructor (localNodeId: Key, initial: RangeMap)
      ensures this.localNodeId == localNodeId && rangeMap == initial
    {
      this.localNodeId, rangeMap := localNodeId, initial;
    }

    method Merge(incoming: RangeMap) returns (changed: bool)
      requires Validate(rangeMap)
      modifies this
      ensures TableMerge(old(rangeMap), incoming, rangeMap, changed)
      ensures Validate(rangeMap)
    {
      var result := Ring.Merge(rangeMap, incoming);
      if result.Merged? && result.changed {
        rangeMap := result.ranges;
        return true;
      }
      return false;
    }

    method Epoch() returns (epoch: uint64)
      requires Validate(rangeMap)
      ensures IsEpoch(rangeMap, epoch)
    {
      epoch := 0;
      for i := 0 to |rangeMap|
        invariant forall j :: 0 <= j < i ==> rangeMap[j].generation <= epoch
        invariant epoch == 0 || exists j :: 0 <= j < i && rangeMap[j].generation == epoch
      {
        if rangeMap[i].generation > epoch {
          epoch := rangeMap[i].generation;
        }
      }
    }

    method Owners(key: Key) returns (owners: seq<Key>)
      requires Validate(rangeMap)
      ensures owners == At(rangeMap, key).replicas && owners != []
    {
      var i := RangeIndexAt(rangeMap, key);
      owners := rangeMap[i].replicas;
    }

    /** Does one range hold every key of the half-open interval [start, end)? */
    method OwnersForRange(start: Key, end: Key) returns (owners: seq<Key>, ok: bool)
      requires Validate(rangeMap)
      ensures ok <==> WithinOneRange(rangeMap, start, end)
      ensures ok ==> owners == At(rangeMap, start).replicas
    {
      OrderLaws();
      if end != [] && !Less(start, end) {
        return [], false;
      }
      var i := RangeIndexAt(rangeMap, start);
      var r := rangeMap[i];
      if r.end != [] && (end == [] || Less(r.end, end)) {
        assert InInterval(start, end, r.end) && !r.Contains(r.end);
        return [], false;
      }
      forall k: Key | InInterval(start, end, k) ensures IndexAt(rangeMap, k) == i {
        ContainsIsIndex(rangeMap, k, i);
      }
      return r.replicas, true;
    }

    /** The same question for the closed interval [start, end] of an engine scan. */
    method OwnersForKeyRange(start: Key, end: Key) returns (owners: seq<Key>, ok: bool)
      requires Validate(rangeMap)
      ensures ok <==> forall k: Key :: AtMost(start, k) && AtMost(k, end) ==>
                IndexAt(rangeMap, k) == IndexAt(rangeMap, start)
      ensures ok ==> owners == At(rangeMap, start).replicas
    {
      OrderLaws();
      var i := RangeIndexAt(rangeMap, start);
      var r := rangeMap[i];
      if r.end != [] && !Less(end, r.end) {
        assert AtMost(start, end) && AtMost(end, end) && !r.Contains(end);
        return [], false;
      }
      forall k: Key | AtMost(start, k) && AtMost(k, end) ensures IndexAt(rangeMap, k) == i {
        ContainsIsIndex(rangeMap, k, i);
      }
      return r.replicas, true;
    }

    method IsOwner(key: Key) returns (owner: bool)
      requires Validate(rangeMap)
      ensures owner <==> localNodeId in At(rangeMap, key).replicas
    {
      var owners := Owners(key);
      owner := localNodeId in owners;
    }

    method OwnsRange(start: Key, end: Key) returns (owns: bool)
      requires Validate(rangeMap)
      ensures owns <==> WithinOneRange(rangeMap, start, end) && localNodeId in At(rangeMap, start).replicas
      ensures owns ==> forall k: Key :: InInterval(start, end, k) ==> localNodeId in At(rangeMap, k).replicas
    {
      var owners, ok := OwnersForRange(start, end);
      owns := ok && localNodeId in owners;
    }
  }
}
