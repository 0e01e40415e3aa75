/** Rendezvous-ranked replica assignment for tablets. */
module Assignment {
  import opened Keys
  import opened Codec

  /** The digest of range and node; the hash itself is a parameter of the model. */
  function ReplicaScore(hash: seq<byte> -> uint64, start: Key, end: Key, node: Key): uint64 {
    hash(LengthPrefixed(start) + LengthPrefixed(end) + LengthPrefixed(node))
  }

  /** The score of a node depends on the range and the node and on nothing else:
      different ranges or nodes are digested as different streams, each string
      behind its length, start first and node last. */
  lemma ScoreTellsApart(a: Key, b: Key, c: Key, x: Key, y: Key, z: Key, hash: seq<byte> -> uint64)
    requires Short(a) && Short(b) && Short(c) && Short(x) && Short(y) && Short(z)
    ensures var s := LengthPrefixed(a) + LengthPrefixed(b) + LengthPrefixed(c);
            var t := LengthPrefixed(x) + LengthPrefixed(y) + LengthPrefixed(z);
            && ReplicaScore(hash, a, b, c) == hash(s) && ReplicaScore(hash, x, y, z) == hash(t)
            && (s == t <==> a == x && b == y && c == z)
  {
    var s := LengthPrefixed(a) + LengthPrefixed(b) + LengthPrefixed(c);
    var t := LengthPrefixed(x) + LengthPrefixed(y) + LengthPrefixed(z);
    if s == t {
      ConcatAssociative(LengthPrefixed(a), LengthPrefixed(b), LengthPrefixed(c));
      ConcatAssociative(LengthPrefixed(x), LengthPrefixed(y), LengthPrefixed(z));
      LengthPrefixedInjective(a, x, LengthPrefixed(b) + LengthPrefixed(c), LengthPrefixed(y) + LengthPrefixed(z));
      LengthPrefixedInjective(b, y, LengthPrefixed(c), LengthPrefixed(z));
      assert LengthPrefixed(c) + [] == LengthPrefixed(c) && LengthPrefixed(z) + [] == LengthPrefixed(z);
      LengthPrefixedInjective(c, z, [], []);
    }
  }

  /** a ranks before b: higher score first, then smaller identifier. */
  predicate Better(score: Key -> uint64, a: Key, b: Key) {
    score(a) > score(b) || (score(a) == score(b) && Less(a, b))
  }

  predicate Ranked(score: Key -> uint64, s: seq<Key>) {
    forall i, j :: 0 <= i < j < |s| ==> Better(score, s[i], s[j])
  }

  predicate Distinct(s: seq<Key>) {
    forall i, j :: 0 <= i < j < |s| ==> s[i] != s[j]
  }

  function Elements(s: seq<Key>): set<Key> {
    set x | x in s
  }

  lemma RankedIsDistinct(score: Key -> uint64, s: seq<Key>)
    requires Ranked(score, s)
    ensures Distinct(s)
  {
    OrderLaws();
  }

  lemma {:induction false} DistinctCount(s: seq<Key>)
    requires Distinct(s)
    ensures |Elements(s)| == |s|
  {
    if s != [] {
      DistinctCount(s[1..]);
      assert Elements(s) == Elements(s[1..]) + {s[0]};
    }
  }

  // ---------------------------------------------------------------- ranking

  function Insert(score: Key -> uint64, s: seq<Key>, x: Key): seq<Key> {
    if s == [] then [x]
    else if Better(score, x, s[0]) then [x] + s
    else [s[0]] + Insert(score, s[1..], x)
  }

  lemma BetterTotal(score: Key -> uint64, x: Key, y: Key)
    ensures x == y || Better(score, x, y) || Better(score, y, x)
  {
    LessTotal(x, y);
  }

  lemma BetterTransitive(score: Key -> uint64, x: Key, y: Key, z: Key)
    requires Better(score, x, y) && Better(score, y, z)
    ensures Better(score, x, z)
  {
    if Less(x, y) && Less(y, z) {
      LessTransitive(x, y, z);
    }
  }

  lemma RankedCons(score: Key -> uint64, x: Key, s: seq<Key>)
    requires Ranked(score, s) && forall y :: y in s ==> Better(score, x, y)
    ensures Ranked(score, [x] + s)
  {
  }

  lemma {:induction false} InsertRanked(score: Key -> uint64, s: seq<Key>, x: Key)
    requires Ranked(score, s) && x !in s
    ensures Ranked(score, Insert(score, s, x))
    ensures Elements(Insert(score, s, x)) == Elements(s) + {x}
  {
    if s != [] {
      var h, t := s[0], s[1..];
      assert s == [h] + t;
      if Better(score, x, h) {
        forall y | y in s ensures Better(score, x, y) {
          if y != h {
            BetterTransitive(score, x, h, y);
          }
        }
        RankedCons(score, x, s);
      } else {
        InsertRanked(score, t, x);
        BetterTotal(score, x, h);
        forall y | y in Insert(score, t, x) ensures Better(score, h, y) {
          assert y in Elements(Insert(score, t, x));
        }
        RankedCons(score, h, Insert(score, t, x));
      }
    }
  }

  /** A ranked list is determined by its elements. */
  lemma {:induction false} RankingUnique(score: Key -> uint64, s: seq<Key>, t: seq<Key>)
    requires Ranked(score, s) && Ranked(score, t) && Elements(s) == Elements(t)
    ensures s == t
  {
    OrderLaws();
    assert t != [] ==> t[0] in Elements(t);
    if s != [] {
      assert s[0] in Elements(t);
      assert t != [] && t[0] in Elements(s);
      assert s[0] == t[0];
      assert forall x :: x in s[1..] <==> x in s && x != s[0];
      assert forall x :: x in t[1..] <==> x in t && x != t[0];
      forall x ensures x in Elements(s[1..]) <==> x in Elements(t[1..]) {
        assert x in Elements(s) <==> x in Elements(t);
      }
      RankingUnique(score, s[1..], t[1..]);
      assert s == [s[0]] + s[1..] && t == [t[0]] + t[1..];
    }
  }

  ghost predicate IsRanking(score: Key -> uint64, nodes: set<Key>, s: seq<Key>) {
    Ranked(score, s) && Elements(s) == nodes
  }

  lemma RankingExists(score: Key -> uint64, nodes: set<Key>) returns (s: seq<Key>)
    ensures IsRanking(score, nodes, s)
  {
    if nodes == {} {
      s := [];
    } else {
      var x :| x in nodes;
      s := RankingExists(score, nodes - {x});
      assert x !in Elements(s);
      InsertRanked(score, s, x);
      s := Insert(score, s, x);
    }
  }

  /** The one ranked list of a set of nodes. */
  ghost function Ranking(score: Key -> uint64, nodes: set<Key>): (s: seq<Key>)
    ensures IsRanking(score, nodes, s)
  {
    assert exists s :: IsRanking(score, nodes, s) by { var s := RankingExists(score, nodes); }
    var s :| IsRanking(score, nodes, s);
    s
  }

  /** Drop empty and repeated candidates, then sort. */
  method RankCandidates(score: Key -> uint64, candidates: seq<Key>) returns (ranked: seq<Key>)
    ensures ranked == Ranking(score, Elements(candidates) - {[]})
  {
    ranked := [];
    for i := 0 to |candidates|
      invariant IsRanking(score, Elements(candidates[..i]) - {[]}, ranked)
    {
      var node := candidates[i];
      assert Elements(candidates[..i + 1]) == Elements(candidates[..i]) + {node};
      if node != [] && node !in ranked {
        InsertRanked(score, ranked, node);
        ranked := Insert(score, ranked, node);
      } else if node != [] {
        assert node in Elements(ranked);
      }
    }
    assert candidates[..|candidates|] == candidates;
    RankingUnique(score, ranked, Ranking(score, Elements(candidates) - {[]}));
  }

  // ---------------------------------------------------------------- assignment

  datatype Assigned = Replicas(ids: seq<Key>) | CountTooSmall | TooFewCandidates | UnsafeAssignment

  /** The members of s that are in keep, in order. */
  function Filter(s: seq<Key>, keep: set<Key>): seq<Key> {
    if s == [] then []
    else Filter(s[..|s| - 1], keep) + if s[|s| - 1] in keep then [s[|s| - 1]] else []
  }

  /** Add nodes from the front of s until there are count of them. */
  function Fill(s: seq<Key>, selected: set<Key>, count: nat): set<Key> {
    if |selected| == count || s == [] then selected else Fill(s[1..], selected + {s[0]}, count)
  }

  function Needed(count: nat): nat {
    if count > 1 then count - 1 else count
  }

  /** The outcome, as a function of sets only: neither the order nor the
      repetition of candidates or of previous replicas can influence it. */
  ghost function Assign(score: Key -> uint64, nodes: set<Key>, previous: set<Key>, count: int): Assigned {
    var ranked := Ranking(score, nodes);
    if count < 1 then CountTooSmall
    else if |ranked| < count then TooFewCandidates
    else
      var kept := Filter(ranked, previous);
      if |kept| < Needed(count) then UnsafeAssignment
      else Replicas(Filter(ranked, Fill(ranked, Elements(kept[..Needed(count)]), count)))
  }

  lemma {:induction false} FilterElements(s: seq<Key>, keep: set<Key>)
    ensures Elements(Filter(s, keep)) == Elements(s) * keep
  {
    if s != [] {
      var t, x := s[..|s| - 1], s[|s| - 1];
      FilterElements(t, keep);
      assert s == t + [x] && Elements([x]) == {x};
      ElementsConcat(t, [x]);
      ElementsConcat(Filter(t, keep), if x in keep then [x] else []);
    }
  }

  lemma {:induction false} FilterFacts(s: seq<Key>, keep: set<Key>)
    requires Distinct(s)
    ensures Elements(Filter(s, keep)) == Elements(s) * keep
    ensures Distinct(Filter(s, keep))
    ensures |Filter(s, keep)| == |Elements(s) * keep|
  {
    FilterElements(s, keep);
    if s != [] {
      var t, x := s[..|s| - 1], s[|s| - 1];
      FilterFacts(t, keep);
      assert x !in Elements(Filter(t, keep));
      var f := Filter(t, keep);
      forall i | 0 <= i < |f| ensures f[i] != x {
        assert f[i] in Elements(f);
      }
    }
    DistinctCount(Filter(s, keep));
  }

  lemma ElementsConcat(a: seq<Key>, b: seq<Key>)
    ensures Elements(a + b) == Elements(a) + Elements(b)
  {
  }

  lemma FilterNext(s: seq<Key>, keep: set<Key>, i: nat)
    requires i < |s|
    ensures Filter(s[..i + 1], keep) == Filter(s[..i], keep) + if s[i] in keep then [s[i]] else []
  {
    assert s[..i + 1][..i] == s[..i];
  }

  lemma FilterNextElements(s: seq<Key>, keep: set<Key>, i: nat)
    requires i < |s|
    ensures Elements(Filter(s[..i + 1], keep)) == Elements(Filter(s[..i], keep)) + if s[i] in keep then {s[i]} else {}
  {
    FilterNext(s, keep, i);
    ElementsConcat(Filter(s[..i], keep), if s[i] in keep then [s[i]] else []);
    assert Elements([s[i]]) == {s[i]} && Elements([]) == {};
  }

  lemma FilterStep(s: seq<Key>, keep: set<Key>, i: nat)
    requires Distinct(s) && i < |s|
    ensures Filter(s[..i + 1], keep) == Filter(s[..i], keep) + if s[i] in keep then [s[i]] else []
    ensures Filter(s[..i + 1], keep) <= Filter(s, keep)
    ensures |Elements(Filter(s[..i + 1], keep))| == |Filter(s[..i + 1], keep)|
    ensures Elements(Filter(s[..i + 1], keep)) == Elements(Filter(s[..i], keep)) + if s[i] in keep then {s[i]} else {}
  {
    FilterNext(s, keep, i);
    FilterPrefix(s, keep, i + 1);
    FilterFacts(s[..i + 1], keep);
    FilterNextElements(s, keep, i);
  }

  lemma {:induction false} FilterPrefix(s: seq<Key>, keep: set<Key>, i: nat)
    requires i <= |s|
    ensures Filter(s[..i], keep) <= Filter(s, keep)
  {
    if i < |s| {
      FilterPrefix(s[..|s| - 1], keep, i);
      assert s[..|s| - 1][..i] == s[..i];
    } else {
      assert s[..i] == s;
    }
  }

  lemma {:induction false} FillFacts(s: seq<Key>, selected: set<Key>, count: nat)
    requires Distinct(s) && |selected| <= count <= |selected + Elements(s)|
    ensures |Fill(s, selected, count)| == count
    ensures selected <= Fill(s, selected, count) <= selected + Elements(s)
  {
    assert s == [] ==> selected + Elements(s) == selected;
    if |selected| != count {
      assert s == [s[0]] + s[1..];
      assert selected + Elements(s) == (selected + {s[0]}) + Elements(s[1..]);
      FillFacts(s[1..], selected + {s[0]}, count);
    }
  }

  /** An assignment has exactly count distinct candidates, keeps at least
      max(1, count - 1) of the previous replicas, and exists whenever that is possible. */
  lemma AssignmentIsSafe(score: Key -> uint64, nodes: set<Key>, previous: set<Key>, count: int)
    ensures var a := Assign(score, nodes, previous, count);
            && (a.Replicas? <==> count >= 1 && |nodes| >= count && |nodes * previous| >= Needed(count))
            && (a.Replicas? ==>
                  && Distinct(a.ids) && |a.ids| == count && Elements(a.ids) <= nodes
                  && |Elements(a.ids) * previous| >= Needed(count) >= 1)
  {
    var ranked := Ranking(score, nodes);
    RankedIsDistinct(score, ranked);
    DistinctCount(ranked);
    if 1 <= count <= |ranked| {
      var kept := Filter(ranked, previous);
      FilterFacts(ranked, previous);
      if |kept| >= Needed(count) {
        var retained := Elements(kept[..Needed(count)]);
        assert Distinct(kept[..Needed(count)]);
        DistinctCount(kept[..Needed(count)]);
        assert retained <= Elements(kept);
        assert retained + Elements(ranked) == nodes;
        FillFacts(ranked, retained, count);
        var selected := Fill(ranked, retained, count);
        FilterFacts(ranked, selected);
        assert Elements(ranked) * selected == selected;
        assert retained <= selected * previous;
        SubsetCount(retained, selected * previous);
      }
    }
  }

  lemma {:induction false} SubsetCount(a: set<Key>, b: set<Key>)
    requires a <= b
    ensures |a| <= |b|
  {
    if a != {} {
      var x :| x in a;
      SubsetCount(a - {x}, b - {x});
    }
  }

  method AssignReplicas(score: Key -> uint64, candidates: seq<Key>, previous: seq<Key>,
                        count: int) returns (r: Assigned)
    ensures r == Assign(score, Elements(candidates) - {[]}, Elements(previous), count)
  {
    var ranked := RankCandidates(score, candidates);
    if count < 1 {
      return CountTooSmall;
    }
    if |ranked| < count {
      return TooFewCandidates;
    }
    var previousSet := Elements(previous);
    var retainedNeeded := count;
    if count > 1 {
      retainedNeeded := retainedNeeded - 1;
    }
    RankedIsDistinct(score, ranked);
    var selected := Retain(ranked, previousSet, retainedNeeded);
    if |selected| < retainedNeeded {
      return UnsafeAssignment;
    }
    selected := FillUp(ranked, selected, count);
    var result := Keep(ranked, selected);
    return Replicas(result);
  }

  method FillUp(ranked: seq<Key>, retained: set<Key>, count: nat) returns (selected: set<Key>)
    ensures selected == Fill(ranked, retained, count)
  {
    selected := retained;
    var i := 0;
    while i < |ranked| && |selected| != count
      invariant 0 <= i <= |ranked|
      invariant Fill(ranked[i..], selected, count) == Fill(ranked, retained, count)
    {
      selected := selected + {ranked[i]};
      i := i + 1;
    }
  }

  method Keep(ranked: seq<Key>, selected: set<Key>) returns (result: seq<Key>)
    ensures result == Filter(ranked, selected)
  {
    result := [];
    for j := 0 to |ranked|
      invariant result == Filter(ranked[..j], selected)
    {
      assert ranked[..j + 1][..j] == ranked[..j];
      if ranked[j] in selected {
        result := result + [ranked[j]];
      }
    }
    assert ranked[..|ranked|] == ranked;
  }

  /** The best-ranked previous replicas, as many as needed or as there are. */
  method Retain(ranked: seq<Key>, previous: set<Key>, needed: nat) returns (selected: set<Key>)
    requires Distinct(ranked) && needed >= 1
    ensures var kept := Filter(ranked, previous);
            if |kept| >= needed
            then selected == Elements(kept[..needed]) && |selected| == needed
            else |selected| == |kept| 
  {
    selected := {};
    for i := 0 to |ranked|
      invariant selected == Elements(Filter(ranked[..i], previous))
      invariant |selected| == |Filter(ranked[..i], previous)| < needed
    {
      FilterStep(ranked, previous, i);
      if ranked[i] !in previous {
        continue;
      }
      selected := selected + {ranked[i]};
      if |selected| == needed {
        assert Filter(ranked, previous)[..needed] == Filter(ranked[..i + 1], previous);
        return;
      }
    }
    assert ranked[..|ranked|] == ranked;
  }

  // ---------------------------------------------------------------- who is chosen

  /** x has the higher score, or an equal one and the smaller identifier. */
  predicate Before(score: Key -> uint64, x: Key, y: Key) {
    if score(x) == score(y) then Less(x, y) else score(x) > score(y)
  }

  lemma {:induction false} FilterRanked(score: Key -> uint64, s: seq<Key>, keep: set<Key>)
    requires Ranked(score, s)
    ensures Ranked(score, Filter(s, keep))
  {
    if s != [] {
      var t, x := s[..|s| - 1], s[|s| - 1];
      FilterRanked(score, t, keep);
      FilterElements(t, keep);
      var f := Filter(t, keep);
      forall i | 0 <= i < |f| ensures Better(score, f[i], x) {
        assert f[i] in Elements(f);
      }
    }
  }

  /** What is filled in ranks before what is left out. */
  lemma {:induction false} FillTakesBest(score: Key -> uint64, s: seq<Key>, selected: set<Key>, count: nat,
                                         x: Key, y: Key)
    requires Ranked(score, s) && x in Fill(s, selected, count) - selected && y in Elements(s) - Fill(s, selected, count)
    ensures Better(score, x, y)
  {
    if |selected| != count && s != [] {
      var next := selected + {s[0]};
      assert Fill(s, selected, count) == Fill(s[1..], next, count);
      FillGrows(s[1..], next, count);
      assert y in Elements(s[1..]);
      if x != s[0] {
        FillTakesBest(score, s[1..], next, count, x, y);
      }
    }
  }

  lemma {:induction false} FillGrows(s: seq<Key>, selected: set<Key>, count: nat)
    ensures selected <= Fill(s, selected, count)
  {
    if |selected| != count && s != [] {
      FillGrows(s[1..], selected + {s[0]}, count);
    }
  }

  lemma PrefixIsBest(score: Key -> uint64, s: seq<Key>, n: nat, x: Key, y: Key)
    requires Ranked(score, s) && n <= |s| && x in Elements(s[..n]) && y in Elements(s) - Elements(s[..n])
    ensures Better(score, x, y)
  {
    var i :| 0 <= i < n && s[i] == x;
    var j :| 0 <= j < |s| && s[j] == y;
    assert forall a :: 0 <= a < n ==> s[..n][a] in Elements(s[..n]);
  }

  /** The replicas are listed by rank; among them are the best of the previous
      ones, as many as are needed; and whoever else is chosen ranks before
      everybody left out. */
  ghost predicate BestChoice(score: Key -> uint64, nodes: set<Key>, previous: set<Key>, count: nat, ids: seq<Key>,
                             kept: set<Key>) {
    && (forall i, j :: 0 <= i < j < |ids| ==> Before(score, ids[i], ids[j]))
    && |ids| == count && Elements(ids) <= nodes
    && kept <= Elements(ids) * previous && |kept| == (if count > 1 then count - 1 else 1)
    && (forall x, y :: x in kept && y in nodes * previous - kept ==> Before(score, x, y))
    && (forall x, y :: x in Elements(ids) - kept && y in nodes - Elements(ids) ==> Before(score, x, y))
  }

  /** Each outcome exactly under its condition, and on success the best choice. */
  lemma AssignmentIsBest(score: Key -> uint64, nodes: set<Key>, previous: set<Key>, count: int)
    ensures var a := Assign(score, nodes, previous, count);
            && (a.CountTooSmall? <==> count < 1)
            && (a.TooFewCandidates? <==> 1 <= count && |nodes| < count)
            && (a.UnsafeAssignment? <==>
                  1 <= count <= |nodes| && |nodes * previous| < if count > 1 then count - 1 else 1)
            && (a.Replicas? ==> exists kept :: BestChoice(score, nodes, previous, count, a.ids, kept))
  {
    var ranked := Ranking(score, nodes);
    RankedIsDistinct(score, ranked);
    DistinctCount(ranked);
    FilterFacts(ranked, previous);
    var a := Assign(score, nodes, previous, count);
    if a.Replicas? {
      var list := Filter(ranked, previous);
      FilterRanked(score, ranked, previous);
      ChosenAreBest(score, nodes, previous, count, ranked, list, Elements(list[..Needed(count)]));
    }
  }

  lemma ChosenAreBest(score: Key -> uint64, nodes: set<Key>, previous: set<Key>, count: nat, ranked: seq<Key>,
                      list: seq<Key>, kept: set<Key>)
    requires count >= 1 && IsRanking(score, nodes, ranked) && Distinct(ranked) && |ranked| >= count
    requires Ranked(score, list) && Distinct(list) && Elements(list) == nodes * previous && |list| >= Needed(count)
    requires kept == Elements(list[..Needed(count)])
    ensures BestChoice(score, nodes, previous, count, Filter(ranked, Fill(ranked, kept, count)), kept)
  {
    var ids := Filter(ranked, Fill(ranked, kept, count));
    DistinctCount(ranked);
    DistinctCount(list[..Needed(count)]);
    assert kept <= Elements(list);
    assert kept + Elements(ranked) == nodes;
    FillFacts(ranked, kept, count);
    FilterFacts(ranked, Fill(ranked, kept, count));
    FilterRanked(score, ranked, Fill(ranked, kept, count));
    assert Elements(ids) == Fill(ranked, kept, count);
    forall x, y | x in kept && y in nodes * previous - kept ensures Before(score, x, y) {
      PrefixIsBest(score, list, Needed(count), x, y);
    }
    forall x, y | x in Elements(ids) - kept && y in nodes - Elements(ids) ensures Before(score, x, y) {
      FillTakesBest(score, ranked, kept, count, x, y);
    }
  }
}
