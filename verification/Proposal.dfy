/** The byte stream whose digest names a proposal. */
module Proposal {
  import opened Keys
  import opened Codec
  import opened Sorting

  /** The part of a range that a proposal is named after. */
  datatype Content = Content(start: Key, end: Key, replicas: seq<Key>)

  predicate KeyOrder(a: Key, b: Key) {
    AtMost(a, b)
  }

  /** By start, then by end. */
  predicate BoundsOrder(a: Content, b: Content) {
    if a.start != b.start then Less(a.start, b.start) else AtMost(a.end, b.end)
  }

  lemma OrdersAreTotal()
    ensures TotalPreorder(KeyOrder) && TotalPreorder(BoundsOrder)
    ensures forall s: seq<Key> :: Separates(KeyOrder, s)
  {
    OrderLaws();
  }

  predicate DistinctBounds(ranges: seq<Content>) {
    forall i, j :: 0 <= i < j < |ranges| ==> ranges[i].start != ranges[j].start || ranges[i].end != ranges[j].end
  }

  function SortReplicas(c: Content): Content {
    c.(replicas := SortBy(KeyOrder, c.replicas))
  }

  function SortAllReplicas(ranges: seq<Content>): seq<Content> {
    seq(|ranges|, i requires 0 <= i < |ranges| => SortReplicas(ranges[i]))
  }

  function Canonicalise(ranges: seq<Content>): seq<Content> {
    SortBy(BoundsOrder, SortAllReplicas(ranges))
  }

  function EncodeKeys(s: seq<Key>): seq<byte> {
    if s == [] then [] else LengthPrefixed(s[0]) + EncodeKeys(s[1..])
  }

  function EncodeContent(c: Content): seq<byte> {
    LengthPrefixed(c.start) + (LengthPrefixed(c.end) + (BigEndian(|c.replicas|, 8) + EncodeKeys(c.replicas)))
  }

  function EncodeContents(s: seq<Content>): seq<byte> {
    if s == [] then [] else EncodeContent(s[0]) + EncodeContents(s[1..])
  }

  function Stream(canonical: seq<Content>): seq<byte> {
    BigEndian(|canonical|, 8) + EncodeContents(canonical)
  }

  // ---------------------------------------------------------------- the stream can be read back

  predicate Representable(c: Content) {
    && Short(c.start) && Short(c.end) && |c.replicas| <= MAX_UINT64
    && forall r :: r in c.replicas ==> Short(r)
  }

  predicate AllRepresentable(s: seq<Content>) {
    |s| <= MAX_UINT64 && forall c :: c in s ==> Representable(c)
  }

  lemma {:induction false} EncodeKeysInjective(s: seq<Key>, t: seq<Key>, x: seq<byte>, y: seq<byte>)
    requires |s| == |t| && (forall r :: r in s ==> Short(r)) && (forall r :: r in t ==> Short(r))
    requires EncodeKeys(s) + x == EncodeKeys(t) + y
    ensures s == t && x == y
  {
    if s == [] {
      assert EncodeKeys(s) + x == x && EncodeKeys(t) + y == y;
    } else {
      assert EncodeKeys(s) + x == LengthPrefixed(s[0]) + (EncodeKeys(s[1..]) + x);
      assert EncodeKeys(t) + y == LengthPrefixed(t[0]) + (EncodeKeys(t[1..]) + y);
      LengthPrefixedInjective(s[0], t[0], EncodeKeys(s[1..]) + x, EncodeKeys(t[1..]) + y);
      EncodeKeysInjective(s[1..], t[1..], x, y);
      assert s == [s[0]] + s[1..] && t == [t[0]] + t[1..];
    }
  }

  lemma EncodeContentSplit(c: Content, x: seq<byte>)
    ensures EncodeContent(c) + x ==
            LengthPrefixed(c.start)
            + (LengthPrefixed(c.end) + (BigEndian(|c.replicas|, 8) + (EncodeKeys(c.replicas) + x)))
  {
    var k := EncodeKeys(c.replicas);
    var n := BigEndian(|c.replicas|, 8);
    var e := LengthPrefixed(c.end);
    var s := LengthPrefixed(c.start);
    ConcatAssociative(s, e + (n + k), x);
    ConcatAssociative(e, n + k, x);
    ConcatAssociative(n, k, x);
  }

  lemma EncodeContentInjective(c: Content, d: Content, x: seq<byte>, y: seq<byte>)
    requires Representable(c) && Representable(d)
    requires EncodeContent(c) + x == EncodeContent(d) + y
    ensures c == d && x == y
  {
    var c3, d3 := EncodeKeys(c.replicas) + x, EncodeKeys(d.replicas) + y;
    var c2, d2 := BigEndian(|c.replicas|, 8) + c3, BigEndian(|d.replicas|, 8) + d3;
    var c1, d1 := LengthPrefixed(c.end) + c2, LengthPrefixed(d.end) + d2;
    EncodeContentSplit(c, x);
    EncodeContentSplit(d, y);
    LengthPrefixedInjective(c.start, d.start, c1, d1);
    LengthPrefixedInjective(c.end, d.end, c2, d2);
    Uint64Injective(|c.replicas|, |d.replicas|, c3, d3);
    EncodeKeysInjective(c.replicas, d.replicas, x, y);
  }

  lemma {:induction false} EncodeContentsInjective(s: seq<Content>, t: seq<Content>)
    requires |s| == |t| && (forall c :: c in s ==> Representable(c)) && (forall c :: c in t ==> Representable(c))
    requires EncodeContents(s) == EncodeContents(t)
    ensures s == t
  {
    if s != [] {
      EncodeContentInjective(s[0], t[0], EncodeContents(s[1..]), EncodeContents(t[1..]));
      EncodeContentsInjective(s[1..], t[1..]);
      assert s == [s[0]] + s[1..] && t == [t[0]] + t[1..];
    }
  }

  // ---------------------------------------------------------------- what the stream identifies

  lemma SortKeepsMembers<T(!new)>(leq: (T, T) -> bool, s: seq<T>)
    requires TotalPreorder(leq)
    ensures |SortBy(leq, s)| == |s|
    ensures forall x :: x in SortBy(leq, s) ==> x in s
  {
    SortByFacts(leq, s);
    assert |SortBy(leq, s)| == |multiset(SortBy(leq, s))| == |multiset(s)|;
    forall x | x in SortBy(leq, s) ensures x in s {
      assert x in multiset(SortBy(leq, s));
    }
  }

  lemma CanonicaliseKeepsRepresentable(s: seq<Content>)
    requires AllRepresentable(s)
    ensures AllRepresentable(Canonicalise(s))
  {
    OrdersAreTotal();
    var t := SortAllReplicas(s);
    SortKeepsMembers(BoundsOrder, t);
    forall c | c in Canonicalise(s) ensures Representable(c) {
      var i :| 0 <= i < |t| && t[i] == c;
      assert s[i] in s && Representable(s[i]);
      SortKeepsMembers(KeyOrder, s[i].replicas);
    }
  }

  lemma DistinctBoundsSeparate(s: seq<Content>)
    requires DistinctBounds(s)
    ensures Separates(BoundsOrder, SortAllReplicas(s))
  {
    OrderLaws();
    var t := SortAllReplicas(s);
    forall x, y | x in t && y in t && BoundsOrder(x, y) && BoundsOrder(y, x) ensures x == y {
      var i :| 0 <= i < |t| && t[i] == x;
      var j :| 0 <= j < |t| && t[j] == y;
      assert s[i].start == s[j].start && s[i].end == s[j].end;
    }
  }

  /** Two proposals with pairwise distinct bounds have the same stream exactly
      when they hold the same ranges, in whatever order, with the same
      replicas, in whatever order. */
  lemma StreamIdentifiesContent(a: seq<Content>, b: seq<Content>)
    requires AllRepresentable(a) && AllRepresentable(b) && DistinctBounds(a)
    ensures Stream(Canonicalise(a)) == Stream(Canonicalise(b))
            <==> multiset(SortAllReplicas(a)) == multiset(SortAllReplicas(b))
  {
    OrdersAreTotal();
    SortByFacts(BoundsOrder, SortAllReplicas(a));
    SortByFacts(BoundsOrder, SortAllReplicas(b));
    if multiset(SortAllReplicas(a)) == multiset(SortAllReplicas(b)) {
      DistinctBoundsSeparate(a);
      SortOrderIndependent(BoundsOrder, SortAllReplicas(a), SortAllReplicas(b));
    }
    if Stream(Canonicalise(a)) == Stream(Canonicalise(b)) {
      CanonicaliseKeepsRepresentable(a);
      CanonicaliseKeepsRepresentable(b);
      var c, d := Canonicalise(a), Canonicalise(b);
      Uint64Injective(|c|, |d|, EncodeContents(c), EncodeContents(d));
      EncodeContentsInjective(c, d);
    }
  }

  /** Reordering the replicas of a range does not change its sorted form. */
  lemma ReplicaOrderIsIrrelevant(c: Content, d: Content)
    requires c.start == d.start && c.end == d.end
    ensures SortReplicas(c) == SortReplicas(d) <==> multiset(c.replicas) == multiset(d.replicas)
  {
    OrdersAreTotal();
    if multiset(c.replicas) == multiset(d.replicas) {
      SortOrderIndependent(KeyOrder, c.replicas, d.replicas);
    } else {
      SortByFacts(KeyOrder, c.replicas);
      SortByFacts(KeyOrder, d.replicas);
    }
  }

  // ---------------------------------------------------------------- writing the stream

  lemma {:induction false} EncodeKeysAppend(s: seq<Key>, x: Key)
    ensures EncodeKeys(s + [x]) == EncodeKeys(s) + LengthPrefixed(x)
  {
    if s == [] {
      assert s + [x] == [x];
    } else {
      assert (s + [x])[1..] == s[1..] + [x];
      EncodeKeysAppend(s[1..], x);
    }
  }

  lemma {:induction false} EncodeContentsAppend(s: seq<Content>, x: Content)
    ensures EncodeContents(s + [x]) == EncodeContents(s) + EncodeContent(x)
  {
    if s == [] {
      assert s + [x] == [x];
    } else {
      assert (s + [x])[1..] == s[1..] + [x];
      EncodeContentsAppend(s[1..], x);
    }
  }

  method WriteContent(r: Content) returns (piece: seq<byte>)
    ensures piece == EncodeContent(r)
  {
    var header := LengthPrefixed(r.start) + (LengthPrefixed(r.end) + BigEndian(|r.replicas|, 8));
    piece := header;
    for j := 0 to |r.replicas|
      invariant piece == header + EncodeKeys(r.replicas[..j])
    {
      EncodeKeysAppend(r.replicas[..j], r.replicas[j]);
      assert r.replicas[..j + 1] == r.replicas[..j] + [r.replicas[j]];
      ConcatAssociative(header, EncodeKeys(r.replicas[..j]), LengthPrefixed(r.replicas[j]));
      piece := piece + LengthPrefixed(r.replicas[j]);
    }
    assert r.replicas[..|r.replicas|] == r.replicas;
    ConcatAssociative(LengthPrefixed(r.start), LengthPrefixed(r.end) + BigEndian(|r.replicas|, 8),
                      EncodeKeys(r.replicas));
    ConcatAssociative(LengthPrefixed(r.end), BigEndian(|r.replicas|, 8), EncodeKeys(r.replicas));
  }

  /** What is fed to the digest, piece by piece. */
  method WriteStream(ranges: seq<Content>) returns (stream: seq<byte>)
    ensures stream == Stream(Canonicalise(ranges))
  {
    var canonical := ranges;
    for i := 0 to |ranges|
      invariant |canonical| == |ranges|
      invariant forall j :: 0 <= j < i ==> canonical[j] == SortReplicas(ranges[j])
      invariant forall j :: i <= j < |ranges| ==> canonical[j] == ranges[j]
    {
      canonical := canonical[i := SortReplicas(canonical[i])];
    }
    assert canonical == SortAllReplicas(ranges);
    canonical := SortBy(BoundsOrder, canonical);
    stream := BigEndian(|canonical|, 8);
    for i := 0 to |canonical|
      invariant stream == BigEndian(|canonical|, 8) + EncodeContents(canonical[..i])
    {
      var piece := WriteContent(canonical[i]);
      EncodeContentsAppend(canonical[..i], canonical[i]);
      assert canonical[..i + 1] == canonical[..i] + [canonical[i]];
      ConcatAssociative(BigEndian(|canonical|, 8), EncodeContents(canonical[..i]), piece);
      stream := stream + piece;
    }
    assert canonical[..|canonical|] == canonical;
  }

  // ---------------------------------------------------------------- the canonical form

  /** Ranges by start and then end, replicas within each by identifier. */
  ghost predicate InOrder(ranges: seq<Content>) {
    && (forall i, j :: 0 <= i < j < |ranges| ==>
          || Less(ranges[i].start, ranges[j].start)
          || (ranges[i].start == ranges[j].start && !Less(ranges[j].end, ranges[i].end)))
    && (forall i, a, b :: 0 <= i < |ranges| && 0 <= a < b < |ranges[i].replicas| ==>
          !Less(ranges[i].replicas[b], ranges[i].replicas[a]))
  }

  lemma ReplicasInOrder(c: Content)
    ensures var s := SortReplicas(c).replicas;
            multiset(s) == multiset(c.replicas) && forall a, b :: 0 <= a < b < |s| ==> !Less(s[b], s[a])
  {
    OrdersAreTotal();
    SortByFacts(KeyOrder, c.replicas);
    var s := SortReplicas(c).replicas;
    forall a, b | 0 <= a < b < |s| ensures !Less(s[b], s[a]) {
      assert KeyOrder(s[a], s[b]);
      NotBoth(s[a], s[b]);
    }
  }

  lemma NotBoth(a: Key, b: Key)
    requires AtMost(a, b)
    ensures !Less(b, a)
  {
    OrderLaws();
  }

  /** The canonical form is in order, and made of the ranges with sorted replicas. */
  lemma CanonicalInOrder(ranges: seq<Content>)
    ensures InOrder(Canonicalise(ranges)) && multiset(Canonicalise(ranges)) == multiset(SortAllReplicas(ranges))
  {
    OrdersAreTotal();
    var s := SortAllReplicas(ranges);
    SortByFacts(BoundsOrder, s);
    var r := Canonicalise(ranges);
    forall i, j | 0 <= i < j < |r|
      ensures Less(r[i].start, r[j].start) || (r[i].start == r[j].start && !Less(r[j].end, r[i].end))
    {
      assert BoundsOrder(r[i], r[j]);
      if r[i].start == r[j].start {
        NotBoth(r[i].end, r[j].end);
      }
    }
    forall i, a, b | 0 <= i < |r| && 0 <= a < b < |r[i].replicas| ensures !Less(r[i].replicas[b], r[i].replicas[a]) {
      assert r[i] in multiset(s);
      var k :| 0 <= k < |s| && s[k] == r[i];
      ReplicasInOrder(ranges[k]);
    }
  }

  /** The stream is the number of ranges, and for each its bounds, the number of
      its replicas and the replicas, every string behind its length. */
  lemma StreamLayout(c: Content, rest: seq<Content>)
    ensures Stream([c] + rest) == BigEndian(1 + |rest|, 8) + (EncodeContent(c) + EncodeContents(rest))
    ensures EncodeContent(c) ==
              BigEndian(|c.start|, 8) + c.start + (BigEndian(|c.end|, 8) + c.end
              + (BigEndian(|c.replicas|, 8) + EncodeKeys(c.replicas)))
    ensures c.replicas != [] ==>
              EncodeKeys(c.replicas) == BigEndian(|c.replicas[0]|, 8) + c.replicas[0] + EncodeKeys(c.replicas[1..])
    ensures EncodeKeys([]) == [] && EncodeContents([]) == []
  {
    assert ([c] + rest)[1..] == rest;
  }
}
