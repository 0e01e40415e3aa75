/** Vector clocks and the reconciliation of concurrent versions. */
module Versioning {
  import opened Keys

  type Clock = map<Key, uint64>

  datatype Relation = Equal | Before | After | Concurrent

  datatype Envelope = Envelope(version: int, clock: Clock, updatedAt: int, deleted: bool, value: Key)

  /** What one replica holds for one key. */
  datatype Copy = Absent | Holds(envelope: Envelope)

  /** A missing entry counts as zero. */
  function Count(c: Clock, node: Key): uint64 {
    if node in c then c[node] else 0
  }

  /** b has seen everything a has seen. */
  ghost predicate Leq(a: Clock, b: Clock) {
    forall n: Key :: Count(a, n) <= Count(b, n)
  }

  ghost function Relate(a: Clock, b: Clock): Relation {
    if Leq(a, b) then (if Leq(b, a) then Equal else Before)
    else if Leq(b, a) then After
    else Concurrent
  }

  lemma LeqTransitive(a: Clock, b: Clock, c: Clock)
    requires Leq(a, b) && Leq(b, c)
    ensures Leq(a, c)
  {
    forall n: Key ensures Count(a, n) <= Count(c, n) {
      assert Count(a, n) <= Count(b, n);
    }
  }

  lemma BeforeTransitive(a: Clock, b: Clock, c: Clock)
    requires Leq(a, b) && Leq(b, c) && (Relate(a, b) == Before || Relate(b, c) == Before)
    ensures Relate(a, c) == Before
  {
    LeqTransitive(a, b, c);
    if Leq(c, a) {
      LeqTransitive(c, a, b);
      LeqTransitive(b, c, a);
    }
  }

  /** The two flag-setting passes over the clocks decide the causal relation. */
  method Compare(a: Clock, b: Clock) returns (r: Relation)
    ensures r == Relate(a, b)
  {
    var aLess, aGreater := false, false;
    var rest := a.Keys;
    while rest != {}
      invariant rest <= a.Keys
      invariant aLess <==> exists n :: n in a.Keys - rest && a[n] < Count(b, n)
      invariant aGreater <==> exists n :: n in a.Keys - rest && a[n] > Count(b, n)
      decreases rest
    {
      var n :| n in rest;
      if a[n] < Count(b, n) { aLess := true; }
      if a[n] > Count(b, n) { aGreater := true; }
      rest := rest - {n};
    }
    assert aGreater <==> !Leq(a, b) by {
      assert !Leq(a, b) ==> exists n: Key :: Count(a, n) > Count(b, n);
      assert forall n: Key :: Count(a, n) > Count(b, n) ==> n in a.Keys - rest;
    }
    rest := b.Keys;
    while rest != {}
      invariant rest <= b.Keys
      invariant aLess <==> (exists n :: n in a.Keys && a[n] < Count(b, n))
                           || (exists n :: n in b.Keys - rest && n !in a && b[n] > 0)
      decreases rest
    {
      var n :| n in rest;
      if n !in a && b[n] > 0 { aLess := true; }
      rest := rest - {n};
    }
    assert aLess <==> !Leq(b, a) by {
      if aLess {
        var n :| (n in a.Keys && a[n] < Count(b, n)) || (n in b.Keys - rest && n !in a && b[n] > 0);
        assert Count(b, n) > Count(a, n);
      }
      if !Leq(b, a) {
        var n: Key :| Count(b, n) > Count(a, n);
        assert (n in a.Keys && a[n] < Count(b, n)) || (n in b.Keys - rest && n !in a && b[n] > 0);
      }
    }
    if !aLess && !aGreater { return Equal; }
    if aLess && !aGreater { return Before; }
    if !aLess && aGreater { return After; }
    return Concurrent;
  }

  ghost predicate IsJoin(a: Clock, b: Clock, j: Clock) {
    forall n: Key :: Count(j, n) == if Count(a, n) > Count(b, n) then Count(a, n) else Count(b, n)
  }

  /** The least clock that has seen everything either clock has seen. */
  method Merge(a: Clock, b: Clock) returns (merged: Clock)
    ensures IsJoin(a, b, merged)
  {
    merged := a;
    var rest := b.Keys;
    while rest != {}
      invariant rest <= b.Keys
      invariant forall n: Key :: Count(merged, n) ==
                  if n in b.Keys - rest && b[n] > Count(a, n) then b[n] else Count(a, n)
      decreases rest
    {
      var n :| n in rest;
      if b[n] > Count(merged, n) {
        merged := merged[n := b[n]];
      }
      rest := rest - {n};
    }
  }

  lemma JoinIsLeastUpperBound(a: Clock, b: Clock, j: Clock)
    requires IsJoin(a, b, j)
    ensures Leq(a, j) && Leq(b, j)
    ensures forall u :: Leq(a, u) && Leq(b, u) ==> Leq(j, u)
  {
    forall u | Leq(a, u) && Leq(b, u) ensures Leq(j, u) {
      forall n: Key ensures Count(j, n) <= Count(u, n) {
        assert Count(a, n) <= Count(u, n) && Count(b, n) <= Count(u, n);
      }
    }
  }

  /** The 64-bit counter wraps around. */
  function Increment(c: Clock, node: Key): Clock {
    c[node := if Count(c, node) == MAX_UINT64 then 0 else Count(c, node) + 1]
  }

  /** A write made in context c supersedes all that c covers, unless the
      writer's own counter is exhausted; then it supersedes nothing. */
  lemma IncrementSupersedesIff(c: Clock, node: Key)
    ensures (forall v :: Leq(v, c) ==> Relate(v, Increment(c, node)) == Before) <==> Count(c, node) != MAX_UINT64
    ensures Count(c, node) == MAX_UINT64 ==> Relate(c, Increment(c, node)) == After
  {
    var i := Increment(c, node);
    assert forall n: Key :: n != node ==> Count(i, n) == Count(c, n);
    if Count(c, node) != MAX_UINT64 {
      assert Relate(c, i) == Before by {
        assert Count(i, node) == Count(c, node) + 1;
      }
      forall v | Leq(v, c) ensures Relate(v, i) == Before {
        BeforeTransitive(v, c, i);
      }
    } else {
      assert Count(i, node) == 0 < Count(c, node);
      assert Leq(c, c) && !Leq(c, i) && Leq(i, c);
    }
  }

  // ---------------------------------------------------------------- reconciliation

  datatype Reconciled =
    | Nothing
    | Winner(envelope: Envelope, context: Clock)
    | Siblings(envelopes: seq<Envelope>, context: Clock)
  {
    function Versions(): seq<Envelope> {
      match this
      case Nothing => []
      case Winner(e, _) => [e]
      case Siblings(es, _) => es
    }
    function Context(): Clock {
      match this
      case Nothing => map[]
      case Winner(_, c) => c
      case Siblings(_, c) => c
    }
  }

  /** Version j makes version i redundant: it is newer, or the same and earlier in the list. */
  ghost predicate Shadows(vs: seq<Envelope>, j: nat, i: nat)
    requires i < |vs| && j < |vs|
  {
    var r := Relate(vs[i].clock, vs[j].clock);
    i != j && (r == Before || (r == Equal && j < i))
  }

  ghost predicate Survives(vs: seq<Envelope>, i: nat)
    requires i < |vs|
  {
    forall j :: 0 <= j < |vs| ==> !Shadows(vs, j, i)
  }

  /** The surviving versions among the first k, in order. */
  ghost function Survivors(vs: seq<Envelope>, k: nat): seq<Envelope>
    requires k <= |vs|
  {
    if k == 0 then [] else Survivors(vs, k - 1) + if Survives(vs, k - 1) then [vs[k - 1]] else []
  }

  lemma {:induction false} SurvivorAt(vs: seq<Envelope>, k: nat, x: nat) returns (i: nat)
    requires k <= |vs| && x < |Survivors(vs, k)|
    ensures i < k && Survives(vs, i) && Survivors(vs, k)[x] == vs[i] && x == |Survivors(vs, i)|
  {
    if x < |Survivors(vs, k - 1)| {
      i := SurvivorAt(vs, k - 1, x);
    } else {
      i := k - 1;
    }
  }

  lemma {:induction false} SurvivorPresent(vs: seq<Envelope>, k: nat, i: nat)
    requires i < k <= |vs| && Survives(vs, i)
    ensures vs[i] in Survivors(vs, k)
  {
    if i < k - 1 {
      SurvivorPresent(vs, k - 1, i);
    }
  }

  lemma ShadowsTransitive(vs: seq<Envelope>, i: nat, j: nat, k: nat)
    requires i < |vs| && j < |vs| && k < |vs| && Shadows(vs, j, i) && Shadows(vs, k, j)
    ensures Shadows(vs, k, i)
  {
    var a, b, c := vs[i].clock, vs[j].clock, vs[k].clock;
    LeqTransitive(a, b, c);
    if Relate(a, b) == Before || Relate(b, c) == Before {
      BeforeTransitive(a, b, c);
    } else {
      LeqTransitive(c, b, a);
    }
  }

  ghost function ShadowsOf(vs: seq<Envelope>, i: nat): set<nat>
    requires i < |vs|
  {
    set j: nat | j < |vs| && Shadows(vs, j, i)
  }

  /** Every version is shadowed, if at all, by one that survives. */
  lemma {:induction false} SurvivorAbove(vs: seq<Envelope>, i: nat) returns (s: nat)
    requires i < |vs|
    ensures s < |vs| && Survives(vs, s) && Leq(vs[i].clock, vs[s].clock)
    decreases ShadowsOf(vs, i)
  {
    if Survives(vs, i) {
      s := i;
    } else {
      var j: nat :| j < |vs| && Shadows(vs, j, i);
      forall k: nat | k < |vs| && Shadows(vs, k, j) ensures Shadows(vs, k, i) {
        ShadowsTransitive(vs, i, j, k);
      }
      assert j in ShadowsOf(vs, i) && j !in ShadowsOf(vs, j);
      s := SurvivorAbove(vs, j);
      LeqTransitive(vs[i].clock, vs[j].clock, vs[s].clock);
    }
  }

  /** The positions of the versions that are kept: nothing newer anywhere, and
      nothing as new earlier in the list. */
  ghost predicate Kept(vs: seq<Envelope>, i: nat) {
    i < |vs| && forall j: nat :: j < |vs| && Leq(vs[i].clock, vs[j].clock) ==> Leq(vs[j].clock, vs[i].clock) && i <= j
  }

  lemma KeptIffSurvives(vs: seq<Envelope>, i: nat)
    requires i < |vs|
    ensures Kept(vs, i) <==> Survives(vs, i)
  {
    forall j: nat | j < |vs| ensures Shadows(vs, j, i) <==>
      Leq(vs[i].clock, vs[j].clock) && !(Leq(vs[j].clock, vs[i].clock) && i <= j) {
    }
    if Survives(vs, i) {
      forall j: nat | j < |vs| && Leq(vs[i].clock, vs[j].clock) ensures Leq(vs[j].clock, vs[i].clock) && i <= j {
        assert !Shadows(vs, j, i);
      }
    }
  }

  /** at lists, in order, where among the first k versions those of out stand, and these are the kept ones. */
  ghost predicate KeptAt(vs: seq<Envelope>, k: nat, out: seq<Envelope>, at: seq<nat>) {
    && k <= |vs| && |at| == |out|
    && (forall x :: 0 <= x < |at| ==> at[x] < k && vs[at[x]] == out[x])
    && (forall x, y :: 0 <= x < y < |at| ==> at[x] < at[y])
    && (forall i: nat :: i in at <==> i < k && Kept(vs, i))
  }

  lemma KeptNext(vs: seq<Envelope>, k: nat, out: seq<Envelope>, at: seq<nat>)
    requires k < |vs| && KeptAt(vs, k, out, at)
    ensures Kept(vs, k) ==> KeptAt(vs, k + 1, out + [vs[k]], at + [k])
    ensures !Kept(vs, k) ==> KeptAt(vs, k + 1, out, at)
  {
    assert forall i: nat :: i in at + [k] <==> i in at || i == k;
  }

  lemma SurvivorsNext(vs: seq<Envelope>, k: nat, at: seq<nat>) returns (at': seq<nat>)
    requires k < |vs| && KeptAt(vs, k, Survivors(vs, k), at)
    ensures KeptAt(vs, k + 1, Survivors(vs, k + 1), at')
  {
    KeptIffSurvives(vs, k);
    KeptNext(vs, k, Survivors(vs, k), at);
    at' := if Kept(vs, k) then at + [k] else at;
  }

  lemma NoneKept(vs: seq<Envelope>)
    ensures KeptAt(vs, 0, [], [])
  {
  }

  /** The survivors are the kept versions, in the order of the input. */
  lemma {:induction false} SurvivorsAreKept(vs: seq<Envelope>, k: nat) returns (at: seq<nat>)
    requires k <= |vs|
    ensures KeptAt(vs, k, Survivors(vs, k), at)
  {
    if k == 0 {
      NoneKept(vs);
      at := [];
    } else {
      at := SurvivorsAreKept(vs, k - 1);
      at := SurvivorsNext(vs, k - 1, at);
    }
  }

  ghost predicate Covers(vs: seq<Envelope>, c: Clock) {
    forall e :: e in vs ==> Leq(e.clock, c)
  }

  /** c is the least clock above all versions. */
  ghost predicate IsContext(vs: seq<Envelope>, c: Clock) {
    Covers(vs, c) && forall u: Clock :: Covers(vs, u) ==> Leq(c, u)
  }

  /** The survivors are the antichain of maxima: pairwise concurrent, taken
      from the input, and together above all of it. */
  lemma SurvivorsAreMaxima(vs: seq<Envelope>)
    ensures var out := Survivors(vs, |vs|);
            && (vs != [] ==> out != [])
            && (forall e :: e in out ==> e in vs)
            && (forall x, y :: 0 <= x < y < |out| ==> Relate(out[x].clock, out[y].clock) == Concurrent)
            && (forall e :: e in vs ==> exists o :: o in out && Leq(e.clock, o.clock))
  {
    var out := Survivors(vs, |vs|);
    forall e | e in out ensures e in vs {
      var x :| 0 <= x < |out| && out[x] == e;
      var i := SurvivorAt(vs, |vs|, x);
    }
    forall x, y | 0 <= x < y < |out| ensures Relate(out[x].clock, out[y].clock) == Concurrent {
      var i := SurvivorAt(vs, |vs|, x);
      var j := SurvivorAt(vs, |vs|, y);
      assert i != j;
      assert !Shadows(vs, i, j) && !Shadows(vs, j, i);
    }
    forall e | e in vs ensures exists o :: o in out && Leq(e.clock, o.clock) {
      var i: nat :| i < |vs| && vs[i] == e;
      var s := SurvivorAbove(vs, i);
      SurvivorPresent(vs, |vs|, s);
    }
    if vs != [] {
      assert vs[0] in vs;
    }
  }

  lemma SurvivorsCoverAll(vs: seq<Envelope>, u: Clock)
    requires Covers(Survivors(vs, |vs|), u)
    ensures Covers(vs, u)
  {
    forall e | e in vs ensures Leq(e.clock, u) {
      var i: nat :| i < |vs| && vs[i] == e;
      var s := SurvivorAbove(vs, i);
      SurvivorPresent(vs, |vs|, s);
      LeqTransitive(e.clock, vs[s].clock, u);
    }
  }

  lemma SurvivorsAreInputs(vs: seq<Envelope>)
    ensures forall e :: e in Survivors(vs, |vs|) ==> e in vs
  {
    var out := Survivors(vs, |vs|);
    forall e | e in out ensures e in vs {
      var x :| 0 <= x < |out| && out[x] == e;
      var i := SurvivorAt(vs, |vs|, x);
    }
  }

  /** Dropping dominated versions does not change the context. */
  lemma ContextOfSurvivors(vs: seq<Envelope>, c: Clock)
    requires IsContext(Survivors(vs, |vs|), c)
    ensures IsContext(vs, c)
  {
    SurvivorsCoverAll(vs, c);
    SurvivorsAreInputs(vs);
    forall u: Clock | Covers(vs, u) ensures Leq(c, u) {
      assert Covers(Survivors(vs, |vs|), u);
    }
  }

  method Dominated(vs: seq<Envelope>, i: nat) returns (dominated: bool)
    requires i < |vs|
    ensures dominated <==> !Survives(vs, i)
  {
    dominated := false;
    for j := 0 to |vs|
      invariant !dominated && forall l :: 0 <= l < j ==> !Shadows(vs, l, i)
    {
      if i == j {
        continue;
      }
      var r := Compare(vs[i].clock, vs[j].clock);
      match r {
        case Before => dominated := true;
        case Equal => if j < i { dominated := true; }
        case _ =>
      }
      if dominated {
        assert Shadows(vs, j, i);
        return;
      }
    }
  }

  method MergeContext(vs: seq<Envelope>) returns (context: Clock)
    ensures IsContext(vs, context)
  {
    context := map[];
    for i := 0 to |vs|
      invariant IsContext(vs[..i], context)
    {
      var next := Merge(context, vs[i].clock);
      JoinIsLeastUpperBound(context, vs[i].clock, next);
      assert vs[..i + 1] == vs[..i] + [vs[i]];
      forall e | e in vs[..i + 1] ensures Leq(e.clock, next) {
        if e in vs[..i] {
          LeqTransitive(e.clock, context, next);
        }
      }
      forall u: Clock | Covers(vs[..i + 1], u) ensures Leq(next, u) {
        assert vs[i] in vs[..i + 1];
        assert Covers(vs[..i], u);
      }
      context := next;
    }
    assert vs[..|vs|] == vs;
  }

  method Reconcile(vs: seq<Envelope>) returns (r: Reconciled)
    ensures r.Nothing? <==> vs == []
    ensures r.Versions() == Survivors(vs, |vs|)
    ensures vs != [] ==> IsContext(vs, r.Context())
    ensures r.Winner? <==> |Survivors(vs, |vs|)| == 1
  {
    if vs == [] {
      return Nothing;
    }
    var nonDominated := [];
    for i := 0 to |vs|
      invariant nonDominated == Survivors(vs, i)
    {
      var dominated := Dominated(vs, i);
      if !dominated {
        nonDominated := nonDominated + [vs[i]];
      }
    }
    var context := MergeContext(nonDominated);
    ContextOfSurvivors(vs, context);
    SurvivorsAreMaxima(vs);
    if |nonDominated| == 1 {
      return Winner(nonDominated[0], context);
    }
    return Siblings(nonDominated, context);
  }
}
