/** Entries, the sparse index and the footer of a table file as bytes
    (src/service/ss_parser/ss_parser_utils.go, src/sstable/reader.go). */
module TableCodec {
  import opened Keys
  import opened Codec
  import opened SortedList

  /** Something read from the front of a byte string, or too little there. */
  datatype Taken<T> = Short | Took(value: T, rest: seq<byte>)

  const MAX_INT64: nat := 0x7FFF_FFFF_FFFF_FFFF

  function TakeUint64(data: seq<byte>): Taken<nat> {
    if |data| < 8 then Taken.Short else Took(FromBigEndian(data[..8]), data[8..])
  }

  /** Lengths are signed 64-bit numbers in the program; a negative one is no length. */
  function TakeString(data: seq<byte>): (t: Taken<Key>)
    ensures t.Took? ==> |t.rest| + 8 <= |data|
  {
    var n := TakeUint64(data);
    if n.Short? || n.value > MAX_INT64 || n.value > |n.rest| then Taken.Short
    else Took(n.rest[..n.value], n.rest[n.value..])
  }

  lemma TakeUint64Back(n: uint64, rest: seq<byte>)
    ensures TakeUint64(BigEndian(n, 8) + rest) == Took(n, rest)
  {
    Pow256Of8();
    BigEndianRoundTrip(n, 8);
    var data := BigEndian(n, 8) + rest;
    assert data[..8] == BigEndian(n, 8) && data[8..] == rest;
  }

  lemma TakeStringBack(s: Key, rest: seq<byte>)
    requires |s| <= MAX_INT64
    ensures TakeString(LengthPrefixed(s) + rest) == Took(s, rest)
  {
    ConcatAssociative(BigEndian(|s|, 8), s, rest);
    TakeUint64Back(|s|, s + rest);
    assert (s + rest)[..|s|] == s && (s + rest)[|s|..] == rest;
  }

  // ---------------------------------------------------------------- entries

  ghost predicate Small(s: Entries) {
    forall e :: e in s ==> |e.key| <= MAX_INT64 && |e.value| <= MAX_INT64
  }

  function EncodeEntry(e: Entry): (b: seq<byte>)
    ensures |b| == 16 + |e.key| + |e.value|
  {
    LengthPrefixed(e.key) + LengthPrefixed(e.value)
  }

  function EncodeEntries(s: Entries): (b: seq<byte>)
    ensures s != [] ==> |b| >= 16
  {
    if s == [] then [] else EncodeEntry(s[0]) + EncodeEntries(s[1..])
  }

  function ReadEntry(data: seq<byte>): (t: Taken<Entry>)
    ensures t.Took? ==> |t.rest| < |data|
  {
    if |data| < 16 then Taken.Short
    else
      var k := TakeString(data);
      if k.Short? then Taken.Short
      else
        var v := TakeString(k.rest);
        if v.Short? then Taken.Short else Took(Entry(k.value, v.value), v.rest)
  }

  lemma ReadEntryBack(e: Entry, rest: seq<byte>)
    requires |e.key| <= MAX_INT64 && |e.value| <= MAX_INT64
    ensures ReadEntry(EncodeEntry(e) + rest) == Took(e, rest)
  {
    ConcatAssociative(LengthPrefixed(e.key), LengthPrefixed(e.value), rest);
    TakeStringBack(e.key, LengthPrefixed(e.value) + rest);
    TakeStringBack(e.value, rest);
  }

  /** Reading entry after entry gives back what was written. */
  lemma EntriesBack(s: Entries)
    requires Small(s)
    ensures s == [] ==> EncodeEntries(s) == []
    ensures s != [] ==> ReadEntry(EncodeEntries(s)) == Took(s[0], EncodeEntries(s[1..])) && Small(s[1..])
  {
    if s != [] {
      ReadEntryBack(s[0], EncodeEntries(s[1..]));
    }
  }

  lemma {:induction false} EncodeEntriesConcat(a: Entries, b: Entries)
    ensures EncodeEntries(a + b) == EncodeEntries(a) + EncodeEntries(b)
  {
    if a == [] {
      assert a + b == b;
    } else {
      assert (a + b)[1..] == a[1..] + b;
      EncodeEntriesConcat(a[1..], b);
      ConcatAssociative(EncodeEntry(a[0]), EncodeEntries(a[1..]), EncodeEntries(b));
    }
  }

  lemma EncodeOneEntry(e: Entry)
    ensures EncodeEntries([e]) == EncodeEntry(e)
  {
    assert [e][1..] == [];
  }

  // ---------------------------------------------------------------- the index

  datatype IndexEntry = IndexEntry(key: Key, offset: nat)

  type Index = seq<IndexEntry>

  ghost predicate SmallIndex(index: Index) {
    forall i :: 0 <= i < |index| ==> |index[i].key| <= MAX_INT64 && index[i].offset <= MAX_UINT64
  }

  function EncodeIndex(index: Index): (b: seq<byte>)
    ensures index != [] ==> |b| >= 8
  {
    if index == [] then []
    else LengthPrefixed(index[0].key) + BigEndian(index[0].offset, 8) + EncodeIndex(index[1..])
  }

  /** The index is serialised entry by entry. */
  method SerializeIndex(index: Index) returns (buf: seq<byte>)
    ensures buf == EncodeIndex(index)
  {
    buf := [];
    assert index[0..] == index;
    for i := 0 to |index|
      invariant EncodeIndex(index) == buf + EncodeIndex(index[i..])
    {
      ghost var tail := EncodeIndex(index[i + 1..]);
      assert index[i..][1..] == index[i + 1..];
      var e := LengthPrefixed(index[i].key) + BigEndian(index[i].offset, 8);
      ConcatAssociative(buf, e, tail);
      buf := buf + e;
    }
  }

  /** A cut entry is an error; fewer than eight bytes at the end are ignored. */
  function ParseIndex(data: seq<byte>): Option<Index>
    decreases |data|
  {
    if |data| < 8 then Some([])
    else
      var k := TakeString(data);
      if k.Short? then None
      else
        var o := TakeUint64(k.rest);
        if o.Short? then None
        else
          Prepend([IndexEntry(k.value, o.value)], ParseIndex(o.rest))
  }

  function Prepend(entries: Index, rest: Option<Index>): Option<Index> {
    if rest.None? then None else Some(entries + rest.value)
  }

  lemma PrependTwice(a: Index, b: Index, rest: Option<Index>)
    ensures Prepend(a, Prepend(b, rest)) == Prepend(a + b, rest)
    ensures Prepend([], rest) == rest
  {
    if rest.Some? {
      ConcatAssociative(a, b, rest.value);
      assert [] + rest.value == rest.value;
    }
  }

  lemma {:induction false} IndexRoundTrip(index: Index)
    requires SmallIndex(index)
    ensures ParseIndex(EncodeIndex(index)) == Some(index)
  {
    if index != [] {
      var e, tail := index[0], EncodeIndex(index[1..]);
      ConcatAssociative(LengthPrefixed(e.key), BigEndian(e.offset, 8), tail);
      TakeStringBack(e.key, BigEndian(e.offset, 8) + tail);
      TakeUint64Back(e.offset, tail);
      IndexRoundTrip(index[1..]);
      assert index == [e] + index[1..];
    }
  }

  /** The parsing loop. */
  method ReadIndex(data: seq<byte>) returns (r: Option<Index>)
    ensures r == ParseIndex(data)
  {
    var entries: Index, rest := [], data;
    PrependTwice([], [], ParseIndex(data));
    while |rest| >= 8
      invariant ParseIndex(data) == Prepend(entries, ParseIndex(rest))
      decreases |rest|
    {
      var k := TakeString(rest);
      if k.Short? {
        return None;
      }
      var o := TakeUint64(k.rest);
      if o.Short? {
        return None;
      }
      PrependTwice(entries, [IndexEntry(k.value, o.value)], ParseIndex(o.rest));
      entries := entries + [IndexEntry(k.value, o.value)];
      rest := o.rest;
    }
    assert entries + [] == entries;
    return Some(entries);
  }

  // ---------------------------------------------------------------- where the bytes are

  /** Key length, key, value length, value. */
  lemma EntryLayout(e: Entry)
    ensures var b, n := EncodeEntry(e), |e.key|;
            && b[..8] == BigEndian(n, 8) && b[8..8 + n] == e.key
            && b[8 + n..16 + n] == BigEndian(|e.value|, 8) && b[16 + n..] == e.value
  {
    var a, b, n := LengthPrefixed(e.key), LengthPrefixed(e.value), |e.key|;
    assert (a + b)[..8] == a[..8] && (a + b)[8..8 + n] == a[8..];
    assert (a + b)[8 + n..16 + n] == b[..8] && (a + b)[16 + n..] == b[8..];
  }

  /** Key length, key, offset, and the entries behind. */
  lemma IndexLayout(index: Index)
    requires index != []
    ensures var b, n := EncodeIndex(index), |index[0].key|;
            && |b| >= 16 + n && b[..8] == BigEndian(n, 8) && b[8..8 + n] == index[0].key
            && b[8 + n..16 + n] == BigEndian(index[0].offset, 8) && b[16 + n..] == EncodeIndex(index[1..])
  {
    var a, o, rest := LengthPrefixed(index[0].key), BigEndian(index[0].offset, 8), EncodeIndex(index[1..]);
    var n := |index[0].key|;
    var b := a + o + rest;
    assert b[..8] == a[..8] && b[8..8 + n] == a[8..] && b[8 + n..16 + n] == o && b[16 + n..] == rest;
  }
}
