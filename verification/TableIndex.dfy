/** The sparse index: entries fall into groups, one per unit of the file, and
    the index holds the first key and the offset of each
    (src/service/ss_parser/ss_parser_utils.go). */
module TableIndex {
  import opened Keys
  import opened Sequences
  import opened SortedList
  import opened TableCodec
  import opened TableBlocks
  import opened TableWriter

  type Groups = seq<Entries>

  function Encoded(groups: Groups): (us: seq<seq<byte>>)
    ensures |us| == |groups|
  {
    seq(|groups|, i requires 0 <= i < |groups| => EncodeEntries(groups[i]))
  }

  /** How many bytes each group takes in the file. */
  function Lengths(size: nat, groups: Groups): (ls: seq<nat>)
    requires size > 3
    ensures |ls| == |groups|
  {
    seq(|groups|, i requires 0 <= i < |groups| => |UnitBytes(size, EncodeEntries(groups[i]))|)
  }

  function Sum(lengths: seq<nat>, i: nat): nat
    requires i <= |lengths|
  {
    if i == 0 then 0 else Sum(lengths, i - 1) + lengths[i - 1]
  }

  lemma {:induction false} SumGrows(lengths: seq<nat>, i: nat, j: nat)
    requires i <= j <= |lengths|
    ensures Sum(lengths, i) <= Sum(lengths, j)
  {
    if i < j {
      SumGrows(lengths, i, j - 1);
    }
  }

  lemma {:induction false} SumOfSame(a: seq<nat>, b: seq<nat>, i: nat)
    requires i <= |a| && i <= |b| && forall j :: 0 <= j < i ==> a[j] == b[j]
    ensures Sum(a, i) == Sum(b, i)
  {
    if i > 0 {
      SumOfSame(a, b, i - 1);
    }
  }

  /** Where group i starts in the file. */
  function Start(size: nat, groups: Groups, i: nat): nat
    requires size > 3 && i <= |groups|
  {
    Sum(Lengths(size, groups), i)
  }

  lemma {:induction false} StartInLayout(size: nat, groups: Groups, i: nat)
    requires size > 3 && i <= |groups|
    ensures Start(size, groups, i) == |Layout(size, Encoded(groups)[..i])|
  {
    if i > 0 {
      StartInLayout(size, groups, i - 1);
      LayoutSnoc(size, Encoded(groups)[..i - 1], EncodeEntries(groups[i - 1]));
      TakeNext(Encoded(groups), i - 1);
    }
  }

  lemma LengthAt(size: nat, a: Groups, b: Groups, j: nat)
    requires size > 3 && j < |a| && j < |b| && a[j] == b[j]
    ensures Lengths(size, a)[j] == Lengths(size, b)[j]
  {
  }

  lemma SameStart(size: nat, a: Groups, b: Groups, i: nat)
    requires size > 3 && i <= |a| && i <= |b| && forall j :: 0 <= j < i ==> a[j] == b[j]
    ensures Start(size, a, i) == Start(size, b, i)
  {
    forall j | 0 <= j < i ensures Lengths(size, a)[j] == Lengths(size, b)[j] {
      LengthAt(size, a, b, j);
    }
    SumOfSame(Lengths(size, a), Lengths(size, b), i);
  }

  /** An index entry for a group that starts at this offset. */
  ghost predicate Marks(e: IndexEntry, group: Entries, offset: nat) {
    group != [] && e == IndexEntry(group[0].key, offset)
  }

  ghost predicate IsIndex(size: nat, groups: Groups, index: Index)
    requires size > 3
  {
    |index| == |groups| && forall i :: 0 <= i < |groups| ==> Marks(index[i], groups[i], Start(size, groups, i))
  }

  /** The entry joins the last group or opens a new one. */
  function Grown(groups: Groups, joins: bool, e: Entry): Groups
    requires joins ==> groups != []
  {
    if joins then ButLast(groups) + [groups[|groups| - 1] + [e]] else groups + [[e]]
  }

  ghost predicate Joins(out: Output, size: nat, data: seq<byte>) {
    out.current != [] && |out.current| + |data| + 3 <= size
  }

  lemma AddToAll(out: Output, size: nat, data: seq<byte>)
    requires data != []
    ensures out.Add(size, data).All()
         == if Joins(out, size, data) then ButLast(out.All()) + [out.current + data] else out.All() + [data]
  {
    assert [] + data == data;
  }

  lemma GrownFlat(groups: Groups, joins: bool, e: Entry)
    requires joins ==> groups != []
    ensures Flatten(Grown(groups, joins, e)) == Flatten(groups) + [e]
  {
    if joins {
      var n := |groups| - 1;
      FlattenConcat(groups[..n], [groups[n] + [e]]);
      FlattenOne(groups[n] + [e]);
      FlattenConcat(groups[..n], [groups[n]]);
      FlattenOne(groups[n]);
      assert groups == groups[..n] + [groups[n]];
    } else {
      FlattenConcat(groups, [[e]]);
      FlattenOne([e]);
    }
  }

  lemma GrownEncoded(groups: Groups, out: Output, size: nat, e: Entry)
    requires out.All() == Encoded(groups)
    ensures var data := EncodeEntry(e); var joins := Joins(out, size, data);
            (joins ==> groups != []) && Encoded(Grown(groups, joins, e)) == out.Add(size, data).All()
  {
    var data := EncodeEntry(e);
    AddToAll(out, size, data);
    EncodeOneEntry(e);
    if Joins(out, size, data) {
      var n := |groups| - 1;
      assert out.All()[n] == out.current == EncodeEntries(groups[n]);
      EncodeEntriesConcat(groups[n], [e]);
    }
  }

  lemma GrownMark(groups: Groups, joins: bool, e: Entry, m: IndexEntry, offset: nat, i: nat)
    requires (joins ==> groups != []) && i < |groups| && Marks(m, groups[i], offset)
    ensures Marks(m, Grown(groups, joins, e)[i], offset)
  {
  }

  lemma GrownIndex(size: nat, groups: Groups, joins: bool, e: Entry, index: Index)
    requires size > 3 && IsIndex(size, groups, index) && (joins ==> groups != [])
    ensures var grown := Grown(groups, joins, e);
            IsIndex(size, grown, if joins then index else index + [IndexEntry(e.key, Start(size, groups, |groups|))])
  {
    var grown := Grown(groups, joins, e);
    var index' := if joins then index else index + [IndexEntry(e.key, Start(size, groups, |groups|))];
    forall i | 0 <= i < |grown| ensures Marks(index'[i], grown[i], Start(size, grown, i)) {
      SameStart(size, grown, groups, i);
      if i < |groups| {
        GrownMark(groups, joins, e, index[i], Start(size, groups, i), i);
      }
    }
  }

  lemma StartGrows(size: nat, groups: Groups)
    requires size > 3 && groups != []
    ensures Start(size, groups, |groups| - 1) < Start(size, groups, |groups|)
  {
    var data := EncodeEntries(groups[|groups| - 1]);
    UnitLength(size, data);
    Monotone(1, BlockCount(size, |data|), size);
  }

  lemma SameBlock(a: nat, b: nat, size: nat)
    requires size > 0
    ensures a == b <==> a * size == b * size
  {
    if a < b {
      Monotone(a + 1, b, size);
      OneMore(a, size);
    } else if b < a {
      Monotone(b + 1, a, size);
      OneMore(b, size);
    }
  }

  /** The block number of the last unit, as remembered by the loop. */
  ghost predicate Remembers(size: nat, groups: Groups, lastBlock: int)
    requires size > 3
  {
    if groups == [] then lastBlock == -1 else lastBlock >= 0 && lastBlock * size == Start(size, groups, |groups| - 1)
  }

  /** The writer's answer tells whether the entry opened a new unit. */
  lemma NewUnit(size: nat, groups: Groups, joins: bool, e: Entry, lastBlock: int, blockNum: nat)
    requires size > 3 && Remembers(size, groups, lastBlock) && (joins ==> groups != [])
    requires var grown := Grown(groups, joins, e); blockNum * size == Start(size, grown, |grown| - 1)
    ensures blockNum == lastBlock <==> joins
    ensures Remembers(size, Grown(groups, joins, e), blockNum)
    ensures !joins ==> blockNum * size == Start(size, groups, |groups|)
  {
    var grown := Grown(groups, joins, e);
    SameStart(size, grown, groups, |grown| - 1);
    if groups != [] {
      SameBlock(blockNum, lastBlock, size);
      if !joins {
        StartGrows(size, groups);
      }
    }
  }

  /** These entries have been written, grouped like this, with this index. */
  ghost predicate Built(size: nat, out: Output, groups: Groups, index: Index, lastBlock: int, written: Entries)
    requires size > 3
  {
    && out.All() == Encoded(groups) && Flatten(groups) == written
    && IsIndex(size, groups, index) && Remembers(size, groups, lastBlock)
  }

  lemma BuiltEmpty(size: nat)
    requires size > 3
    ensures Built(size, Output([], []), [], [], -1, [])
  {
  }

  /** One more entry; a new block number means a new index entry. */
  lemma BuiltStep(size: nat, out: Output, groups: Groups, index: Index, lastBlock: int, written: Entries, e: Entry,
                  blockNum: nat)
    returns (groups': Groups)
    requires size > 3 && Built(size, out, groups, index, lastBlock, written)
    requires var all := out.Add(size, EncodeEntry(e)).All();
             all != [] && blockNum * size == |Layout(size, ButLast(all))|
    ensures Built(size, out.Add(size, EncodeEntry(e)), groups',
                  if blockNum != lastBlock then index + [IndexEntry(e.key, blockNum * size)] else index,
                  blockNum, written + [e])
  {
    var joins := Joins(out, size, EncodeEntry(e));
    GrownEncoded(groups, out, size, e);
    groups' := Grown(groups, joins, e);
    StartInLayout(size, groups', |groups'| - 1);
    NewUnit(size, groups, joins, e, lastBlock, blockNum);
    GrownIndex(size, groups, joins, e, index);
    GrownFlat(groups, joins, e);
  }

  /** Write one entry; a new block number means a new index entry. */
  method AddEntry(fw: FileWriter, e: Entry, index: Index, lastBlock: int, ghost groups: Groups, ghost written: Entries)
    returns (index': Index, lastBlock': int, ghost groups': Groups)
    requires fw.Valid() && fw.raw == [] && Built(fw.size, fw.Value(), groups, index, lastBlock, written)
    modifies fw
    ensures fw.Valid() && fw.raw == [] && Built(fw.size, fw.Value(), groups', index', lastBlock', written + [e])
  {
    ghost var out := fw.Value();
    var blockNum := fw.Write(EncodeEntry(e), false);
    groups' := BuiltStep(fw.size, out, groups, index, lastBlock, written, e, blockNum);
    index', lastBlock' := index, blockNum;
    if blockNum != lastBlock {
      index' := index + [IndexEntry(e.key, blockNum * fw.size)];
    }
  }

  method SerializeDataBuildIndex(fw: FileWriter, kvs: Entries) returns (index: Index, ghost groups: Groups)
    requires fw.Valid() && fw.Value() == Output([], []) && fw.raw == []
    modifies fw
    ensures fw.Valid() && fw.Value().All() == Encoded(groups) && fw.raw == []
    ensures Flatten(groups) == kvs && IsIndex(fw.size, groups, index)
  {
    index, groups := [], [];
    var lastBlock := -1;
    BuiltEmpty(fw.size);
    ghost var written: Entries := [];
    for i := 0 to |kvs|
      invariant fw.Valid() && fw.raw == [] && written == kvs[..i]
      invariant Built(fw.size, fw.Value(), groups, index, lastBlock, written)
    {
      index, lastBlock, groups := AddEntry(fw, kvs[i], index, lastBlock, groups, written);
      TakeNext(kvs, i);
      written := written + [kvs[i]];
    }
    TakeAll(kvs);
  }
}
