/** Root digests over a key range, and what equal digests prove. */
module Merkle {
  import opened Keys
  import opened Codec
  import opened Sequences
  import opened Versioning
  import opened SplitRange

  type Rows = map<Key, Envelope>

  datatype Row = Row(key: Key, envelope: Envelope)

  function Look(rows: Rows, k: Key): Copy {
    if k in rows then Holds(rows[k]) else Absent
  }

  /** The rows of a key range. */
  function Within(rows: Rows, b: Bucket): Rows {
    map k | k in rows && InBucket(b, k) :: rows[k]
  }

  predicate KeySorted(s: seq<Row>) {
    forall i, j :: 0 <= i < j < |s| ==> Less(s[i].key, s[j].key)
  }

  /** s lists the rows in key order. */
  predicate IsListing(s: seq<Row>, rows: Rows) {
    && KeySorted(s)
    && (forall r :: r in s ==> r.key in rows && rows[r.key] == r.envelope)
    && (forall k :: k in rows ==> Row(k, rows[k]) in s)
  }

  lemma ListingHead(s: seq<Row>, t: seq<Row>, rows: Rows)
    requires IsListing(s, rows) && IsListing(t, rows) && s != []
    ensures t != [] && !Less(s[0].key, t[0].key)
  {
    assert s[0] in s;
    assert Row(s[0].key, rows[s[0].key]) in t;
    var i :| 0 <= i < |t| && t[i] == s[0];
    if i > 0 && Less(s[0].key, t[0].key) {
      LessTransitive(s[0].key, t[0].key, s[0].key);
    }
    LessIrreflexive(s[0].key);
  }

  lemma {:induction false} ListingUnique(s: seq<Row>, t: seq<Row>, rows: Rows)
    requires IsListing(s, rows) && IsListing(t, rows)
    ensures s == t
  {
    assert s == [] <==> t == [] by {
      if s != [] { ListingHead(s, t, rows); }
      if t != [] { ListingHead(t, s, rows); }
    }
    if s != [] {
      assert s[0] == t[0] by {
        ListingHead(s, t, rows);
        ListingHead(t, s, rows);
        LessTotal(s[0].key, t[0].key);
        assert s[0] in s && t[0] in t;
      }
      assert s[1..] == t[1..] by {
        ListingTail(s, rows);
        ListingTail(t, rows);
        ListingUnique(s[1..], t[1..], rows - {s[0].key});
      }
      assert s == [s[0]] + s[1..];
      assert t == [t[0]] + t[1..];
    }
  }

  lemma ListingTail(s: seq<Row>, rows: Rows)
    requires IsListing(s, rows) && s != []
    ensures IsListing(s[1..], rows - {s[0].key})
  {
    assert s == [s[0]] + s[1..];
    forall r | r in s[1..] ensures r.key in rows && r.key != s[0].key && rows[r.key] == r.envelope {
      var i :| 0 <= i < |s[1..]| && s[1..][i] == r;
      assert Less(s[0].key, s[i + 1].key);
      LessIrreflexive(r.key);
      assert r in s;
    }
  }

  method InsertRow(sorted: seq<Row>, row: Row) returns (r: seq<Row>)
    requires KeySorted(sorted) && forall x :: x in sorted ==> x.key != row.key
    ensures KeySorted(r) && forall x :: x in r <==> x in sorted || x == row
  {
    var i := 0;
    while i < |sorted| && Less(sorted[i].key, row.key)
      invariant 0 <= i <= |sorted|
      invariant forall j :: 0 <= j < i ==> Less(sorted[j].key, row.key)
    {
      i := i + 1;
    }
    r := sorted[..i] + [row] + sorted[i..];
    Placed(sorted, row, i);
  }

  /** A row put between the keys below its own and the rest. */
  lemma Placed(sorted: seq<Row>, row: Row, i: nat)
    requires KeySorted(sorted) && (forall x :: x in sorted ==> x.key != row.key) && i <= |sorted|
    requires (forall j :: 0 <= j < i ==> Less(sorted[j].key, row.key))
             && (i < |sorted| ==> !Less(sorted[i].key, row.key))
    ensures var r := sorted[..i] + [row] + sorted[i..]; KeySorted(r) && forall x :: x in r <==> x in sorted || x == row
  {
    forall j | i <= j < |sorted| ensures Less(row.key, sorted[j].key) {
      assert sorted[i] in sorted;
      LessTotal(sorted[i].key, row.key);
      if i < j {
        LessTransitive(row.key, sorted[i].key, sorted[j].key);
      }
    }
    assert sorted == sorted[..i] + sorted[i..];
  }

  /** Scan a range, in no particular order, and sort the result by key. */
  method ScanSorted(rows: Rows, b: Bucket) returns (s: seq<Row>)
    ensures IsListing(s, Within(rows, b))
  {
    s := [];
    var within := Within(rows, b);
    var rest := within.Keys;
    while rest != {}
      invariant rest <= within.Keys && KeySorted(s)
      invariant forall x :: x in s <==> x.key in within.Keys - rest && within[x.key] == x.envelope
      decreases rest
    {
      var k :| k in rest;
      s := InsertRow(s, Row(k, within[k]));
      rest := rest - {k};
    }
  }

  // ---------------------------------------------------------------- the digest stream

  /** Key and stored value, each behind its length. */
  function EncodeRow(encode: Envelope -> seq<byte>, r: Row): (s: seq<byte>)
    ensures |s| >= 16
  {
    LengthPrefixed(r.key) + LengthPrefixed(encode(r.envelope))
  }

  function EncodeRows(encode: Envelope -> seq<byte>, s: seq<Row>): seq<byte> {
    if s == [] then [] else EncodeRow(encode, s[0]) + EncodeRows(encode, s[1..])
  }

  /** A row whose key and stored value have lengths of machine size. */
  predicate ShortRow(encode: Envelope -> seq<byte>, r: Row) {
    Short(r.key) && Short(encode(r.envelope))
  }

  /** Envelopes of s and t with the same stored value are the same. */
  ghost predicate ToldApart(encode: Envelope -> seq<byte>, s: seq<Row>, t: seq<Row>) {
    forall q, r :: q in s && r in t && encode(q.envelope) == encode(r.envelope) ==> q.envelope == r.envelope
  }

  /** The digests of s and t, together with the row counts, do not collide. */
  predicate NoCollision(hash: seq<byte> -> seq<byte>, encode: Envelope -> seq<byte>, s: seq<Row>, t: seq<Row>) {
    |s| == |t| && hash(EncodeRows(encode, s)) == hash(EncodeRows(encode, t)) ==>
        EncodeRows(encode, s) == EncodeRows(encode, t)
  }

  /** No two different row lists produce the same byte stream. */
  lemma {:induction false} EncodeRowsInjective(encode: Envelope -> seq<byte>, s: seq<Row>, t: seq<Row>)
    requires (forall r :: r in s ==> ShortRow(encode, r)) && (forall r :: r in t ==> ShortRow(encode, r))
    requires ToldApart(encode, s, t) && EncodeRows(encode, s) == EncodeRows(encode, t)
    ensures s == t
  {
    if s != [] && t != [] {
      var x, y := EncodeRows(encode, s[1..]), EncodeRows(encode, t[1..]);
      assert s[0] in s && t[0] in t;
      ConcatAssociative(LengthPrefixed(s[0].key), LengthPrefixed(encode(s[0].envelope)), x);
      ConcatAssociative(LengthPrefixed(t[0].key), LengthPrefixed(encode(t[0].envelope)), y);
      LengthPrefixedInjective(s[0].key, t[0].key,
                              LengthPrefixed(encode(s[0].envelope)) + x, LengthPrefixed(encode(t[0].envelope)) + y);
      LengthPrefixedInjective(encode(s[0].envelope), encode(t[0].envelope), x, y);
      EncodeRowsInjective(encode, s[1..], t[1..]);
      assert s == [s[0]] + s[1..] && t == [t[0]] + t[1..];
    }
  }

  lemma {:induction false} EncodeRowsAppend(encode: Envelope -> seq<byte>, s: seq<Row>, r: Row)
    ensures EncodeRows(encode, s + [r]) == EncodeRows(encode, s) + EncodeRow(encode, r)
  {
    if s == [] {
      assert s + [r] == [r];
    } else {
      assert (s + [r])[1..] == s[1..] + [r];
      EncodeRowsAppend(encode, s[1..], r);
      ConcatAssociative(EncodeRow(encode, s[0]), EncodeRows(encode, s[1..]), EncodeRow(encode, r));
    }
  }

  datatype Root = Root(digest: seq<byte>, count: nat)

  ghost predicate IsRoot(hash: seq<byte> -> seq<byte>, encode: Envelope -> seq<byte>, rows: Rows, b: Bucket,
                         root: Root) {
    exists s :: IsListing(s, Within(rows, b)) && root == Root(hash(EncodeRows(encode, s)), |s|)
  }

  method ComputeMerkleRoot(hash: seq<byte> -> seq<byte>, encode: Envelope -> seq<byte>, rows: Rows, b: Bucket)
      returns (root: Root)
    ensures IsRoot(hash, encode, rows, b, root)
  {
    var sorted := ScanSorted(rows, b);
    var stream := [];
    for i := 0 to |sorted|
      invariant stream == EncodeRows(encode, sorted[..i])
    {
      EncodeRowsAppend(encode, sorted[..i], sorted[i]);
      TakeNext(sorted, i);
      stream := stream + EncodeRow(encode, sorted[i]);
    }
    TakeAll(sorted);
    root := Root(hash(stream), |sorted|);
  }

  lemma ListingFixesRows(s: seq<Row>, a: Rows, b: Rows)
    requires IsListing(s, a) && IsListing(s, b)
    ensures a == b
  {
    assert forall k :: k in a ==> Row(k, a[k]) in s;
    assert forall k :: k in b ==> Row(k, b[k]) in s;
  }

  /** What the root comparison of two sorted row lists relies on: lengths of
      machine size, stored values that determine envelopes, and no collision
      between these two streams. */
  ghost predicate Comparable(hash: seq<byte> -> seq<byte>, encode: Envelope -> seq<byte>, s: seq<Row>, t: seq<Row>) {
    && (forall r :: r in s ==> ShortRow(encode, r))
    && (forall r :: r in t ==> ShortRow(encode, r))
    && ToldApart(encode, s, t)
    && NoCollision(hash, encode, s, t)
  }

  lemma DigestsAgreeIff(hash: seq<byte> -> seq<byte>, encode: Envelope -> seq<byte>, a: Rows, b: Rows, s: seq<Row>,
                        t: seq<Row>)
    requires IsListing(s, a) && IsListing(t, b) && Comparable(hash, encode, s, t)
    ensures |s| == |t| && hash(EncodeRows(encode, s)) == hash(EncodeRows(encode, t)) <==> a == b
  {
    if |s| == |t| && hash(EncodeRows(encode, s)) == hash(EncodeRows(encode, t)) {
      EncodeRowsInjective(encode, s, t);
      ListingFixesRows(s, a, b);
    }
    if a == b {
      ListingUnique(s, t, a);
    }
  }

  /** Two stores whose row lists over every range can be compared. */
  ghost predicate ComparableOver(hash: seq<byte> -> seq<byte>, encode: Envelope -> seq<byte>, a: Rows, b: Rows,
                                 range: Bucket) {
    forall s, t :: IsListing(s, Within(a, range)) && IsListing(t, Within(b, range)) ==> Comparable(hash, encode, s, t)
  }

  /** Two replicas have equal roots over a range exactly when they hold the same rows there. */
  lemma RootsAgreeIff(hash: seq<byte> -> seq<byte>, encode: Envelope -> seq<byte>, a: Rows, b: Rows, range: Bucket,
                      x: Root, y: Root)
    requires ComparableOver(hash, encode, a, b, range)
    requires IsRoot(hash, encode, a, range, x) && IsRoot(hash, encode, b, range, y)
    ensures x == y <==> Within(a, range) == Within(b, range)
  {
    var s :| IsListing(s, Within(a, range)) && x == Root(hash(EncodeRows(encode, s)), |s|);
    var t :| IsListing(t, Within(b, range)) && y == Root(hash(EncodeRows(encode, t)), |t|);
    DigestsAgreeIff(hash, encode, Within(a, range), Within(b, range), s, t);
  }

  /** A row is digested as key length, key, value length and stored value. */
  lemma RowLayout(encode: Envelope -> seq<byte>, r: Row)
    ensures var b, n, v := EncodeRow(encode, r), |r.key|, encode(r.envelope);
            && |b| == 16 + n + |v| && b[..8] == BigEndian(n, 8) && b[8..8 + n] == r.key
            && b[8 + n..16 + n] == BigEndian(|v|, 8) && b[16 + n..] == v
  {
    var a, b, n := LengthPrefixed(r.key), LengthPrefixed(encode(r.envelope)), |r.key|;
    assert (a + b)[..8] == a[..8] && (a + b)[8..8 + n] == a[8..];
    assert (a + b)[8 + n..16 + n] == b[..8] && (a + b)[16 + n..] == b[8..];
  }
}
