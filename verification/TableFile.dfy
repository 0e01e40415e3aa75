/** A whole table file, written by flushing a memtable
    (src/service/ss_parser/ss_parser.go) and opened again by a reader
    (src/sstable/reader.go). */
module TableFile {
  import opened Keys
  import opened Codec
  import opened Sequences
  import opened SortedList
  import opened TableCodec
  import opened TableBlocks
  import opened TableWriter
  import opened TableIndex
  import TableReader
  import TableScans
  import Bloom

  const FOOTER_SIZE: nat := 56
  const FOOTER_MAGIC: uint64 := 0x0D1A_ACCE_55DB_0002

  datatype Footer = Footer(indexOffset: nat, indexSize: nat, filterOffset: nat, filterSize: nat, itemCount: nat,
                           maxLSN: nat)

  function EncodeNumbers(ns: seq<nat>): (b: seq<byte>)
    ensures |b| == 8 * |ns|
  {
    if ns == [] then [] else BigEndian(ns[0], 8) + EncodeNumbers(ns[1..])
  }

  function DecodeNumbers(b: seq<byte>, k: nat): (ns: seq<nat>)
    requires |b| == 8 * k
    ensures |ns| == k
  {
    if k == 0 then [] else [FromBigEndian(b[..8])] + DecodeNumbers(b[8..], k - 1)
  }

  lemma {:induction false} NumbersBack(ns: seq<nat>)
    requires forall i :: 0 <= i < |ns| ==> ns[i] <= MAX_UINT64
    ensures DecodeNumbers(EncodeNumbers(ns), |ns|) == ns
  {
    if ns != [] {
      TakeUint64Back(ns[0], EncodeNumbers(ns[1..]));
      NumbersBack(ns[1..]);
      assert ns == [ns[0]] + ns[1..];
    }
  }

  function EncodeFooter(f: Footer): (b: seq<byte>)
    ensures |b| == FOOTER_SIZE
  {
    EncodeNumbers([f.indexOffset, f.indexSize, f.filterOffset, f.filterSize, f.itemCount, f.maxLSN, FOOTER_MAGIC])
  }

  /** Seven numbers of eight bytes, the last of which must be the magic one. */
  function DecodeFooter(b: seq<byte>): Option<Footer>
    requires |b| == FOOTER_SIZE
  {
    var ns := DecodeNumbers(b, 7);
    if ns[6] != FOOTER_MAGIC then None else Some(Footer(ns[0], ns[1], ns[2], ns[3], ns[4], ns[5]))
  }

  ghost predicate SmallFooter(f: Footer) {
    && f.indexOffset <= MAX_INT64 && f.indexSize <= MAX_INT64
    && f.filterOffset <= MAX_INT64 && f.filterSize <= MAX_INT64
    && f.itemCount <= MAX_INT64 && f.maxLSN <= MAX_UINT64
  }

  lemma FooterRoundTrip(f: Footer)
    requires SmallFooter(f)
    ensures DecodeFooter(EncodeFooter(f)) == Some(f)
  {
    NumbersBack([f.indexOffset, f.indexSize, f.filterOffset, f.filterSize, f.itemCount, f.maxLSN, FOOTER_MAGIC]);
  }

  // ---------------------------------------------------------------- the filter section

  function EncodeFilters(keys: seq<byte>, prefixes: seq<byte>, merkle: seq<byte>): seq<byte> {
    LengthPrefixed(keys) + (LengthPrefixed(prefixes) + LengthPrefixed(merkle))
  }

  /** The key filter and the prefix filter; the digest behind them is not read. */
  function DecodeFilters(data: seq<byte>): Option<(Bloom.Filter, Bloom.Filter)> {
    var a := TakeString(data);
    if a.Short? then None
    else
      var keys := Bloom.DecodeFilter(a.value);
      if keys.None? then None
      else
        var b := TakeString(a.rest);
        if b.Short? then None
        else
          var prefixes := Bloom.DecodeFilter(b.value);
          if prefixes.None? then None else Some((keys.value, prefixes.value))
  }

  lemma FiltersRoundTrip(keys: Bloom.Filter, prefixes: Bloom.Filter, merkle: seq<byte>)
    requires Bloom.Storable(keys) && Bloom.Storable(prefixes)
    requires |Bloom.EncodeFilter(keys)| <= MAX_INT64 && |Bloom.EncodeFilter(prefixes)| <= MAX_INT64
    ensures DecodeFilters(EncodeFilters(Bloom.EncodeFilter(keys), Bloom.EncodeFilter(prefixes), merkle))
         == Some((keys, prefixes))
  {
    var a, b := Bloom.EncodeFilter(keys), Bloom.EncodeFilter(prefixes);
    TakeStringBack(a, LengthPrefixed(b) + LengthPrefixed(merkle));
    TakeStringBack(b, LengthPrefixed(merkle));
    Bloom.FilterRoundTrip(keys);
    Bloom.FilterRoundTrip(prefixes);
  }

  /** The section holds the three strings, one after the other, and nothing else. */
  lemma FilterStrings(keys: seq<byte>, prefixes: seq<byte>, merkle: seq<byte>)
    requires |keys| <= MAX_INT64 && |prefixes| <= MAX_INT64 && |merkle| <= MAX_INT64
    ensures var a := TakeString(EncodeFilters(keys, prefixes, merkle));
            && a.Took? && a.value == keys
            && var b := TakeString(a.rest);
               && b.Took? && b.value == prefixes && TakeString(b.rest) == Took(merkle, [])
  {
    TakeStringBack(keys, LengthPrefixed(prefixes) + LengthPrefixed(merkle));
    TakeStringBack(prefixes, LengthPrefixed(merkle));
    TakeStringBack(merkle, []);
    assert LengthPrefixed(merkle) + [] == LengthPrefixed(merkle);
  }

  // ---------------------------------------------------------------- opening

  /** What a reader keeps of an open file. */
  datatype Table = Table(index: Index, filter: Bloom.Filter, prefixes: Bloom.Filter, itemCount: nat, maxLSN: nat)

  function Open(file: seq<byte>): Option<Table> {
    if |file| < FOOTER_SIZE then None
    else
      var f := DecodeFooter(file[|file| - FOOTER_SIZE..]);
      if f.None? then None else Load(file, f.value)
  }

  /** The sections the footer points to. */
  function Load(file: seq<byte>, f: Footer): Option<Table> {
    var indexBytes, filterBytes := ReadAt(file, f.indexOffset, f.indexSize), ReadAt(file, f.filterOffset, f.filterSize);
    if indexBytes.None? || filterBytes.None? then None
    else
      var index, filters := ParseIndex(indexBytes.value), DecodeFilters(filterBytes.value);
      if index.None? || filters.None? then None
      else Some(Table(index.value, filters.value.0, filters.value.1, f.itemCount, f.maxLSN))
  }

  /** Four sections one after the other, where the footer says. */
  function Assembled(blocks: seq<byte>, indexBytes: seq<byte>, filterBytes: seq<byte>, items: nat,
                     maxLSN: nat): seq<byte> {
    blocks + (indexBytes + (filterBytes + EncodeFooter(FooterFor(blocks, indexBytes, filterBytes, items, maxLSN))))
  }

  function FooterFor(blocks: seq<byte>, indexBytes: seq<byte>, filterBytes: seq<byte>, items: nat,
                     maxLSN: nat): Footer {
    Footer(|blocks|, |indexBytes|, |blocks| + |indexBytes|, |filterBytes|, items, maxLSN)
  }

  lemma SectionsAt(blocks: seq<byte>, indexBytes: seq<byte>, filterBytes: seq<byte>, footer: seq<byte>)
    ensures var file := blocks + (indexBytes + (filterBytes + footer));
            && file[|file| - |footer|..] == footer && blocks <= file
            && ReadAt(file, |blocks|, |indexBytes|) == Some(indexBytes)
            && ReadAt(file, |blocks| + |indexBytes|, |filterBytes|) == Some(filterBytes)
  {
    var tail := filterBytes + footer;
    var file := blocks + (indexBytes + tail);
    assert file[|blocks|..|blocks| + |indexBytes|] == indexBytes;
    assert file[|blocks| + |indexBytes|..|blocks| + |indexBytes| + |filterBytes|] == filterBytes;
  }

  lemma OpenIsLoad(file: seq<byte>, f: Footer)
    requires |file| >= FOOTER_SIZE && file[|file| - FOOTER_SIZE..] == EncodeFooter(f) && SmallFooter(f)
    ensures Open(file) == Load(file, f)
  {
    FooterRoundTrip(f);
  }

  lemma OpenBack(file: seq<byte>, f: Footer, index: Index, keys: Bloom.Filter, prefixes: Bloom.Filter,
                 indexBytes: seq<byte>, filterBytes: seq<byte>)
    requires |file| >= FOOTER_SIZE && file[|file| - FOOTER_SIZE..] == EncodeFooter(f) && SmallFooter(f)
    requires ReadAt(file, f.indexOffset, f.indexSize) == Some(indexBytes) && ParseIndex(indexBytes) == Some(index)
    requires ReadAt(file, f.filterOffset, f.filterSize) == Some(filterBytes)
             && DecodeFilters(filterBytes) == Some((keys, prefixes))
    ensures Open(file) == Some(Table(index, keys, prefixes, f.itemCount, f.maxLSN))
  {
    OpenIsLoad(file, f);
  }

  /** Opening gives back what the sections decode to. */
  lemma OpenSections(blocks: seq<byte>, indexBytes: seq<byte>, filterBytes: seq<byte>, items: nat, maxLSN: nat,
                     index: Index, keys: Bloom.Filter, prefixes: Bloom.Filter)
    requires ParseIndex(indexBytes) == Some(index) && DecodeFilters(filterBytes) == Some((keys, prefixes))
    requires SmallFooter(FooterFor(blocks, indexBytes, filterBytes, items, maxLSN))
    ensures var file := Assembled(blocks, indexBytes, filterBytes, items, maxLSN);
            blocks <= file && Open(file) == Some(Table(index, keys, prefixes, items, maxLSN))
  {
    var f := FooterFor(blocks, indexBytes, filterBytes, items, maxLSN);
    var file := Assembled(blocks, indexBytes, filterBytes, items, maxLSN);
    SectionsAt(blocks, indexBytes, filterBytes, EncodeFooter(f));
    OpenBack(file, f, index, keys, prefixes, indexBytes, filterBytes);
  }

  // ---------------------------------------------------------------- flushing

  /** Fixed by the configuration: block size, prefix lengths, and the digest behind the filters. */
  datatype Config = Config(size: nat, lo: nat, hi: nat, digest: Bloom.Digest)

  ghost predicate Sound(c: Config) { 3 < c.size <= 65538 && c.lo <= c.hi }

  function KeysOf(s: Entries): (ks: seq<Key>)
    ensures |ks| == |s|
  {
    seq(|s|, i requires 0 <= i < |s| => s[i].key)
  }

  /** An open table stands for a list: its blocks hold the list in groups, and
      its filters rule out nothing that is in it. */
  ghost predicate Stands(c: Config, file: seq<byte>, t: Table, groups: Groups) {
    && TableReader.Holds(file, c.size, t.index, groups) && t.filter.bits != [] && t.prefixes.bits != []
    && (forall e :: e in Flatten(groups) ==> Bloom.Covers(c.digest, t.filter, e.key))
    && (forall e, p :: e in Flatten(groups) && Bloom.IsPrefix(p, e.key) ==>
        Bloom.MayContain(c.digest, t.prefixes, c.lo, c.hi, p))
  }

  lemma FiltersComplete(c: Config, f: Bloom.Filter, g: Bloom.Filter, list: Entries)
    requires c.lo <= c.hi && f.bits != [] && g.bits != []
    ensures forall e :: e in list ==> Bloom.Covers(c.digest, Bloom.WithAll(c.digest, f, KeysOf(list)), e.key)
    ensures forall e, p :: e in list && Bloom.IsPrefix(p, e.key) ==>
              Bloom.MayContain(c.digest, Bloom.WithAll(c.digest, g, Bloom.AllPrefixes(KeysOf(list), c.lo, c.hi)), c.lo,
                               c.hi, p)
  {
    forall e | e in list ensures e.key in KeysOf(list) {
      var i :| 0 <= i < |list| && list[i] == e;
      assert KeysOf(list)[i] == e.key;
    }
    forall e | e in list ensures Bloom.Covers(c.digest, Bloom.WithAll(c.digest, f, KeysOf(list)), e.key) {
      Bloom.NoFalseNegatives(c.digest, f, KeysOf(list), e.key);
    }
    forall e, p | e in list && Bloom.IsPrefix(p, e.key)
      ensures Bloom.MayContain(c.digest, Bloom.WithAll(c.digest, g, Bloom.AllPrefixes(KeysOf(list), c.lo, c.hi)), c.lo,
                               c.hi, p)
    {
      Bloom.PrefixComplete(c.digest, g, KeysOf(list), c.lo, c.hi, e.key, p);
    }
  }

  /** Cell counts and seeds of the two filters, and the digest of the values. */
  datatype Extras = Extras(m: nat, seeds: seq<Bloom.Seed>, pm: nat, pseeds: seq<Bloom.Seed>, merkle: seq<byte>,
                           maxLSN: nat)

  function KeyFilter(c: Config, x: Extras, data: Entries): Bloom.Filter
    requires x.m > 0
  {
    Bloom.WithAll(c.digest, Bloom.Filter(seq(x.m, _ => 0), x.seeds), KeysOf(data))
  }

  function PrefixFilter(c: Config, x: Extras, data: Entries): Bloom.Filter
    requires x.pm > 0
  {
    Bloom.WithAll(c.digest, Bloom.Filter(seq(x.pm, _ => 0), x.pseeds), Bloom.AllPrefixes(KeysOf(data), c.lo, c.hi))
  }

  function FilterBytes(c: Config, x: Extras, data: Entries): seq<byte>
    requires x.m > 0 && x.pm > 0
  {
    EncodeFilters(Bloom.EncodeFilter(KeyFilter(c, x, data)), Bloom.EncodeFilter(PrefixFilter(c, x, data)), x.merkle)
  }

  method BuildFilters(c: Config, x: Extras, data: Entries) returns (bytes: seq<byte>)
    requires x.m > 0 && x.pm > 0
    ensures bytes == FilterBytes(c, x, data)
  {
    var filter := new Bloom.BloomFilter(c.digest, x.m, x.seeds);
    filter.AddMultiple(KeysOf(data));
    var keys := Bloom.Filter(filter.cells[..], filter.seeds);
    var prefixFilter := new Bloom.BloomFilter(c.digest, x.pm, x.pseeds);
    Bloom.AddAllPrefixes(prefixFilter, KeysOf(data), c.lo, c.hi);
    var prefixes := Bloom.Filter(prefixFilter.cells[..], prefixFilter.seeds);
    bytes := EncodeFilters(Bloom.EncodeFilter(keys), Bloom.EncodeFilter(prefixes), x.merkle);
  }

  /** Index, filter section and footer go behind the blocks. */
  method Finish(fw: FileWriter, indexBytes: seq<byte>, filterBytes: seq<byte>, items: nat,
                maxLSN: nat) returns (file: seq<byte>)
    requires fw.Valid() && fw.raw == [] && fw.currentBlock == []
    modifies fw
    ensures file == Assembled(old(fw.file), indexBytes, filterBytes, items, maxLSN)
  {
    var indexOffset := fw.WriteRaw(indexBytes);
    var filterOffset := fw.WriteRaw(filterBytes);
    var footer := EncodeFooter(Footer(indexOffset, |indexBytes|, filterOffset, |filterBytes|, items, maxLSN));
    var _ := fw.WriteRaw(footer);
    file := fw.file + fw.raw;
    ConcatAssociative(indexBytes, filterBytes, footer);
  }

  // ---------------------------------------------------------------- the file stands for the list

  /** Nothing outgrows the number fields of the file. */
  ghost predicate Fits(x: Extras, data: Entries, file: seq<byte>) {
    && Small(data) && |file| <= MAX_INT64 && |data| <= MAX_INT64 && x.maxLSN <= MAX_UINT64
    && 0 < x.m <= Bloom.MAX_INT32 && |x.seeds| <= Bloom.MAX_INT32
    && 0 < x.pm <= Bloom.MAX_INT32 && |x.pseeds| <= Bloom.MAX_INT32
    && (forall i :: 0 <= i < |x.seeds| ==> |x.seeds[i]| == 4)
    && (forall i :: 0 <= i < |x.pseeds| ==> |x.pseeds[i]| == 4)
  }

  lemma StartWithin(size: nat, groups: Groups, i: nat)
    requires size > 3 && i <= |groups|
    ensures Start(size, groups, i) <= |Layout(size, Encoded(groups))|
  {
    SumGrows(Lengths(size, groups), i, |groups|);
    StartInLayout(size, groups, |groups|);
    TakeAll(Encoded(groups));
  }

  lemma IndexFits(size: nat, groups: Groups, index: Index)
    requires size > 3 && IsIndex(size, groups, index) && Small(Flatten(groups))
             && |Layout(size, Encoded(groups))| <= MAX_INT64
    ensures SmallIndex(index)
  {
    forall i | 0 <= i < |index| ensures |index[i].key| <= MAX_INT64 && index[i].offset <= MAX_UINT64 {
      assert Marks(index[i], groups[i], Start(size, groups, i));
      StartWithin(size, groups, i);
      TableReader.SmallGroup(groups, i);
      assert groups[i][0] in groups[i];
    }
  }

  lemma AssembledLength(blocks: seq<byte>, indexBytes: seq<byte>, filterBytes: seq<byte>, items: nat, maxLSN: nat)
    ensures |Assembled(blocks, indexBytes, filterBytes, items, maxLSN)|
         == |blocks| + |indexBytes| + |filterBytes| + FOOTER_SIZE
  {
  }

  lemma FilterBytesBack(c: Config, x: Extras, data: Entries)
    requires 0 < x.m && 0 < x.pm && Bloom.Storable(KeyFilter(c, x, data)) && Bloom.Storable(PrefixFilter(c, x, data))
    requires |FilterBytes(c, x, data)| <= MAX_INT64
    ensures DecodeFilters(FilterBytes(c, x, data)) == Some((KeyFilter(c, x, data), PrefixFilter(c, x, data)))
  {
    FiltersRoundTrip(KeyFilter(c, x, data), PrefixFilter(c, x, data), x.merkle);
  }

  /** A flushed table opens, and stands for the entries it was flushed from. */
  lemma FlushedStands(c: Config, x: Extras, data: Entries, file: seq<byte>, index: Index, groups: Groups)
    requires Sound(c) && Sorted(data) && Fits(x, data, file) && Flatten(groups) == data
             && IsIndex(c.size, groups, index)
    requires file == Assembled(Layout(c.size, Encoded(groups)), EncodeIndex(index), FilterBytes(c, x, data), |data|,
                               x.maxLSN)
    ensures var t := Table(index, KeyFilter(c, x, data), PrefixFilter(c, x, data), |data|, x.maxLSN);
            Open(file) == Some(t) && Stands(c, file, t, groups)
  {
    var blocks, indexBytes, filterBytes := Layout(c.size, Encoded(groups)), EncodeIndex(index), FilterBytes(c, x, data);
    AssembledLength(blocks, indexBytes, filterBytes, |data|, x.maxLSN);
    IndexFits(c.size, groups, index);
    IndexRoundTrip(index);
    FilterBytesBack(c, x, data);
    OpenSections(blocks, indexBytes, filterBytes, |data|, x.maxLSN, index, KeyFilter(c, x, data),
                 PrefixFilter(c, x, data));
    TableReader.WrittenHolds(file, c.size, index, groups);
    FiltersComplete(c, Bloom.Filter(seq(x.m, _ => 0), x.seeds), Bloom.Filter(seq(x.pm, _ => 0), x.pseeds), data);
  }

  /** The file that holds these entries: data blocks, index, filter section, footer. */
  ghost predicate IsTable(c: Config, x: Extras, data: Entries, file: seq<byte>, index: Index, groups: Groups)
    requires c.size > 3 && x.m > 0 && x.pm > 0
  {
    && Flatten(groups) == data && IsIndex(c.size, groups, index)
    && file == Assembled(Layout(c.size, Encoded(groups)), EncodeIndex(index), FilterBytes(c, x, data), |data|, x.maxLSN)
  }

  /** An open table stands for this list. */
  ghost predicate StandsFor(c: Config, file: seq<byte>, t: Table, list: Entries) {
    exists groups :: Flatten(groups) == list && Stands(c, file, t, groups)
  }

  method FlushMemtable(c: Config, x: Extras, data: Entries) returns (file: seq<byte>)
    requires c.size > 3 && x.m > 0 && x.pm > 0
    ensures exists index, groups :: IsTable(c, x, data, file, index, groups)
    ensures Sound(c) && Sorted(data) && Fits(x, data, file) ==>
              Open(file).Some? && StandsFor(c, file, Open(file).value, data)
    ensures Sound(c) && Sorted(data) && Fits(x, data, file) ==>
              Open(file).value.itemCount == |data| && Open(file).value.maxLSN == x.maxLSN
  {
    var filterBytes := BuildFilters(c, x, data);
    var fw := new FileWriter(c.size);
    var index, groups := SerializeDataBuildIndex(fw, data);
    var _ := fw.Write([], true);
    var indexBytes := SerializeIndex(index);
    file := Finish(fw, indexBytes, filterBytes, |data|, x.maxLSN);
    assert IsTable(c, x, data, file, index, groups);
    if Sound(c) && Sorted(data) && Fits(x, data, file) {
      FlushedStands(c, x, data, file, index, groups);
    }
  }

  // ---------------------------------------------------------------- access through an open table

  method Get(c: Config, file: seq<byte>, t: Table, key: Key, ghost list: Entries)
      returns (r: TableReader.Result<Option<Key>>)
    requires StandsFor(c, file, t, list)
    ensures r == TableReader.Done(Find(list, key))
    ensures forall v :: r.value == Some(v) <==> Entry(key, v) in list
  {
    ghost var groups :| Flatten(groups) == list && Stands(c, file, t, groups);
    FoundMembers(list, key);
    r := TableReader.Get(c.digest, t.filter, file, c.size, t.index, key, groups);
  }

  method RangeScan(c: Config, file: seq<byte>, t: Table, start: Key, end: Key, ghost list: Entries)
    returns (r: TableReader.Result<map<Key, Key>>)
    requires StandsFor(c, file, t, list)
    ensures r == TableReader.Done(TableScans.Picked(list, k => TableScans.InRange(start, end, k)))
    ensures forall k, v :: k in r.value && r.value[k] == v <==> Entry(k, v) in list && !Less(k, start) && !Less(end, k)
  {
    ghost var groups :| Flatten(groups) == list && Stands(c, file, t, groups);
    r := TableScans.RangeScan(file, c.size, t.index, start, end, groups);
    TableScans.PickedRange(list, start, end);
  }

  method PrefixScan(c: Config, file: seq<byte>, t: Table, prefix: Key, ghost list: Entries)
    returns (r: TableReader.Result<map<Key, Key>>)
    requires StandsFor(c, file, t, list)
    ensures r == TableReader.Done(TableScans.Picked(list, k => TableScans.Matches(prefix, k)))
    ensures forall k, v :: k in r.value && r.value[k] == v <==> Entry(k, v) in list && prefix <= k
  {
    ghost var groups :| Flatten(groups) == list && Stands(c, file, t, groups);
    TableScans.PickedPrefix(list, prefix);
    r := TableScans.PrefixScan(c.digest, t.prefixes, c.lo, c.hi, file, c.size, t.index, prefix, groups);
  }

  method ScanAll(c: Config, file: seq<byte>, t: Table, ghost list: Entries) returns (r: TableReader.Result<Entries>)
    requires StandsFor(c, file, t, list)
    ensures r == TableReader.Done(list)
  {
    ghost var groups :| Flatten(groups) == list && Stands(c, file, t, groups);
    r := TableReader.ScanAll(file, c.size, t.index, groups);
  }

  // ---------------------------------------------------------------- where the sections are

  lemma {:induction false} NumberAt(ns: seq<nat>, i: nat)
    requires i < |ns|
    ensures EncodeNumbers(ns)[8 * i..8 * i + 8] == BigEndian(ns[i], 8)
  {
    var head, rest := BigEndian(ns[0], 8), EncodeNumbers(ns[1..]);
    if i == 0 {
      assert (head + rest)[0..8] == head;
    } else {
      NumberAt(ns[1..], i - 1);
      assert (head + rest)[8 * i..8 * i + 8] == rest[8 * (i - 1)..8 * (i - 1) + 8];
    }
  }

  /** Seven numbers of eight bytes, most significant byte first. */
  lemma FooterLayout(f: Footer)
    ensures var b := EncodeFooter(f);
            && b[0..8] == BigEndian(f.indexOffset, 8) && b[8..16] == BigEndian(f.indexSize, 8)
            && b[16..24] == BigEndian(f.filterOffset, 8) && b[24..32] == BigEndian(f.filterSize, 8)
            && b[32..40] == BigEndian(f.itemCount, 8) && b[40..48] == BigEndian(f.maxLSN, 8)
            && b[48..56] == BigEndian(0x0D1A_ACCE_55DB_0002, 8)
  {
    var ns := [f.indexOffset, f.indexSize, f.filterOffset, f.filterSize, f.itemCount, f.maxLSN, FOOTER_MAGIC];
    NumberAt(ns, 0);
    NumberAt(ns, 1);
    NumberAt(ns, 2);
    NumberAt(ns, 3);
    NumberAt(ns, 4);
    NumberAt(ns, 5);
    NumberAt(ns, 6);
  }

  /** Data blocks, index, filters and footer follow each other without a gap, and the footer says where. */
  lemma FileLayout(blocks: seq<byte>, indexBytes: seq<byte>, filterBytes: seq<byte>, items: nat, maxLSN: nat)
    ensures var file := Assembled(blocks, indexBytes, filterBytes, items, maxLSN);
            var a, b, d := |blocks|, |blocks| + |indexBytes|, |blocks| + |indexBytes| + |filterBytes|;
            && file[..a] == blocks && file[a..b] == indexBytes && file[b..d] == filterBytes
            && file[d..] == EncodeFooter(Footer(a, b - a, b, d - b, items, maxLSN))
  {
    var footer := EncodeFooter(FooterFor(blocks, indexBytes, filterBytes, items, maxLSN));
    FourSections(blocks, indexBytes, filterBytes, footer);
  }

  lemma FourSections(x: seq<byte>, y: seq<byte>, z: seq<byte>, w: seq<byte>)
    ensures var file := x + (y + (z + w));
            var a, b, d := |x|, |x| + |y|, |x| + |y| + |z|;
            file[..a] == x && file[a..b] == y && file[b..d] == z && file[d..] == w
  {
  }
}
