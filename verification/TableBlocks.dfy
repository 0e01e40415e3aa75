/** Fixed-size blocks of a table file: how the writer fills and marks them
    (src/service/file_writer/writer.go) and how the reader takes them apart
    again (src/sstable/reader.go), including entries that span blocks. */
module TableBlocks {
  import opened Keys
  import opened Codec
  import opened SortedList

  const NON_JUMBO: byte := 0
  const JUMBO_START: byte := 1
  const JUMBO_MIDDLE: byte := 3
  const JUMBO_END: byte := 7

  function Zeros(n: nat): (z: seq<byte>)
    ensures |z| == n
  {
    seq(n, _ => 0)
  }

  /** Data, padding, the number of used bytes in sixteen bits, and the kind. */
  function Block(size: nat, data: seq<byte>, kind: byte): (b: seq<byte>)
    requires |data| + 3 <= size
    ensures |b| == size
  {
    data + Zeros(size - 3 - |data|) + [(|data| / 256) % 256, |data| % 256, kind]
  }

  function ExtractClean(block: seq<byte>): seq<byte> {
    if |block| < 3 then block
    else
      var n := |block| - 3;
      var high: int, low: int := block[n], block[n + 1];
      var used := 256 * high + low;
      if used > n then block[..n] else block[..used]
  }

  /** The used count fits its sixteen bits. */
  lemma CleanOfBlock(size: nat, data: seq<byte>, kind: byte)
    requires |data| + 3 <= size && |data| < 65536
    ensures var b := Block(size, data, kind); ExtractClean(b) == data && b[size - 1] == kind
  {
    var b := Block(size, data, kind);
    assert b[size - 3] == |data| / 256 && b[size - 2] == |data| % 256;
    assert b[..|data|] == data;
  }

  /** Data cut into full chunks: the first block is marked as a start, the last as an end. */
  function JumboBlocks(size: nat, data: seq<byte>, first: bool): seq<byte>
    requires size > 3
    decreases |data|
  {
    if |data| <= size - 3 then Block(size, data, JUMBO_END)
    else
      Block(size, data[..size - 3], if first then JUMBO_START else JUMBO_MIDDLE)
      + JumboBlocks(size, data[size - 3..], false)
  }

  // ---------------------------------------------------------------- reading

  function ReadAt(file: seq<byte>, offset: nat, n: nat): Option<seq<byte>> {
    if offset + n <= |file| then Some(file[offset..offset + n]) else None
  }

  /** Everything from here to the end of a jumbo entry. */
  function JumboForward(file: seq<byte>, offset: nat, size: nat): Option<seq<byte>>
    requires size > 3
    decreases |file| - offset
  {
    match ReadAt(file, offset, size)
    case None => None
    case Some(block) =>
      if block[size - 1] == JUMBO_END then Some(ExtractClean(block))
      else Joined(ExtractClean(block), JumboForward(file, offset + size, size))
  }

  function Joined(a: seq<byte>, b: Option<seq<byte>>): Option<seq<byte>> {
    if b.None? then None else Some(a + b.value)
  }

  /** The unit that starts at this block: one block, or a jumbo entry's. */
  function ReadUnit(file: seq<byte>, offset: nat, size: nat): Option<seq<byte>>
    requires size > 3
  {
    match ReadAt(file, offset, size)
    case None => None
    case Some(block) =>
      var kind := block[size - 1];
      if kind == NON_JUMBO || kind == JUMBO_END then Some(ExtractClean(block))
      else if kind == JUMBO_START then Joined(ExtractClean(block), JumboForward(file, offset + size, size))
      else None
  }

  /** These bytes stand at this place of the file. */
  ghost predicate At(file: seq<byte>, offset: nat, bytes: seq<byte>) {
    ReadAt(file, offset, |bytes|) == Some(bytes)
  }

  lemma AtSplit(file: seq<byte>, offset: nat, a: seq<byte>, b: seq<byte>)
    requires At(file, offset, a + b)
    ensures At(file, offset, a) && At(file, offset + |a|, b)
  {
    var n := |a| + |b|;
    assert file[offset..offset + n] == a + b;
    assert file[offset..offset + |a|] == (a + b)[..|a|] == a;
    assert file[offset + |a|..offset + n] == (a + b)[|a|..] == b;
  }

  lemma ForwardStep(file: seq<byte>, offset: nat, size: nat, chunk: seq<byte>, kind: byte)
    requires 3 < size <= 65538 && |chunk| <= size - 3 && At(file, offset, Block(size, chunk, kind))
    ensures JumboForward(file, offset, size)
         == if kind == JUMBO_END then Some(chunk) else Joined(chunk, JumboForward(file, offset + size, size))
  {
    CleanOfBlock(size, chunk, kind);
  }

  lemma {:induction false} JumboForwardBack(file: seq<byte>, offset: nat, data: seq<byte>, size: nat)
    requires 3 < size <= 65538 && At(file, offset, JumboBlocks(size, data, false))
    ensures JumboForward(file, offset, size) == Some(data)
    decreases |data|
  {
    if |data| <= size - 3 {
      ForwardStep(file, offset, size, data, JUMBO_END);
    } else {
      var chunk, rest := data[..size - 3], data[size - 3..];
      AtSplit(file, offset, Block(size, chunk, JUMBO_MIDDLE), JumboBlocks(size, rest, false));
      ForwardStep(file, offset, size, chunk, JUMBO_MIDDLE);
      JumboForwardBack(file, offset + size, rest, size);
      assert chunk + rest == data;
    }
  }

  /** The bytes of one unit: a block if they fit, a jumbo run otherwise. */
  function UnitBytes(size: nat, data: seq<byte>): (b: seq<byte>)
    requires size > 3
  {
    if |data| <= size - 3 then Block(size, data, NON_JUMBO) else JumboBlocks(size, data, true)
  }

  /** Wherever it stands, a unit reads back as the data it was written from. */
  lemma UnitBack(file: seq<byte>, offset: nat, data: seq<byte>, size: nat)
    requires 3 < size <= 65538 && At(file, offset, UnitBytes(size, data))
    ensures ReadUnit(file, offset, size) == Some(data)
  {
    if |data| <= size - 3 {
      CleanOfBlock(size, data, NON_JUMBO);
    } else {
      var chunk, rest := data[..size - 3], data[size - 3..];
      AtSplit(file, offset, Block(size, chunk, JUMBO_START), JumboBlocks(size, rest, false));
      CleanOfBlock(size, chunk, JUMBO_START);
      JumboForwardBack(file, offset + size, rest, size);
      assert chunk + rest == data;
    }
  }

  ghost predicate UnitsReadBack(size: nat)
    requires size > 3
  {
    forall file: seq<byte>, offset: nat, data: seq<byte> ::
      At(file, offset, UnitBytes(size, data)) ==> ReadUnit(file, offset, size) == Some(data)
  }

  /** A block of 65536 used bytes says it has none. */
  lemma CountOverflows(size: nat)
    requires size > 65538
    ensures ReadUnit(UnitBytes(size, Zeros(65536)), 0, size) == Some([])
  {
    var b := UnitBytes(size, Zeros(65536));
    assert b[size - 3] == 0 && b[size - 2] == 0 && b[size - 1] == NON_JUMBO;
    assert b[0..size] == b;
  }

  lemma UnitLost(size: nat)
    requires size > 65538
    ensures !UnitsReadBack(size)
  {
    var data := Zeros(65536);
    var file := UnitBytes(size, data);
    assert file[0..|file|] == file;
    assert At(file, 0, UnitBytes(size, data));
    CountOverflows(size);
    assert |data| != 0;
  }

  /** Data survives writing and reading exactly when a block's used count fits sixteen bits. */
  lemma UnitsReadBackIff(size: nat)
    requires size > 3
    ensures UnitsReadBack(size) <==> size <= 65538
  {
    if size <= 65538 {
      forall file: seq<byte>, offset: nat, data: seq<byte> | At(file, offset, UnitBytes(size, data))
        ensures ReadUnit(file, offset, size) == Some(data)
      {
        UnitBack(file, offset, data, size);
      }
    } else {
      UnitLost(size);
    }
  }

  /** How many blocks a unit takes. */
  function BlockCount(size: nat, len: nat): (n: nat)
    requires size > 3
    ensures n > 0
    decreases len
  {
    if len <= size - 3 then 1 else 1 + BlockCount(size, len - (size - 3))
  }

  lemma OneMore(n: nat, size: nat)
    ensures (1 + n) * size == size + n * size
  {
  }

  lemma {:induction false} JumboLength(size: nat, data: seq<byte>, first: bool)
    requires size > 3
    ensures |JumboBlocks(size, data, first)| == BlockCount(size, |data|) * size
    decreases |data|
  {
    if |data| > size - 3 {
      JumboLength(size, data[size - 3..], false);
      OneMore(BlockCount(size, |data| - (size - 3)), size);
    }
  }

  lemma UnitLength(size: nat, data: seq<byte>)
    requires size > 3
    ensures |UnitBytes(size, data)| == BlockCount(size, |data|) * size
  {
    if |data| > size - 3 {
      JumboLength(size, data, true);
    }
  }

  /** The reading loop over the blocks of a jumbo entry. */
  method ReadJumboForward(file: seq<byte>, start: nat, firstData: seq<byte>, size: nat) returns (r: Option<seq<byte>>)
    requires size > 3
    ensures r == Joined(firstData, JumboForward(file, start + size, size))
  {
    var result, offset := firstData, start + size;
    while true
      invariant Joined(result, JumboForward(file, offset, size))
             == Joined(firstData, JumboForward(file, start + size, size))
      decreases |file| - offset
    {
      var block := ReadAt(file, offset, size);
      if block.None? {
        return None;
      }
      var clean := ExtractClean(block.value);
      JoinedTwice(result, clean, JumboForward(file, offset + size, size));
      result := result + clean;
      if block.value[size - 1] == JUMBO_END {
        return Some(result);
      }
      offset := offset + size;
    }
  }

  lemma JoinedTwice(a: seq<byte>, b: seq<byte>, c: Option<seq<byte>>)
    ensures Joined(a, Joined(b, c)) == Joined(a + b, c)
  {
    if c.Some? {
      ConcatAssociative(a, b, c.value);
    }
  }

  method ReadDataBlock(file: seq<byte>, offset: nat, size: nat) returns (r: Option<seq<byte>>)
    requires size > 3
    ensures r == ReadUnit(file, offset, size)
  {
    var block := ReadAt(file, offset, size);
    if block.None? {
      return None;
    }
    var kind := block.value[|block.value| - 1];
    var clean := ExtractClean(block.value);
    if kind == NON_JUMBO || kind == JUMBO_END {
      return Some(clean);
    }
    if kind == JUMBO_START {
      r := ReadJumboForward(file, offset, clean, size);
      return;
    }
    return None;
  }

  /** The data, then zeros, then the number of used bytes in two bytes, then the kind. */
  lemma BlockLayout(size: nat, data: seq<byte>, kind: byte)
    requires |data| + 3 <= size
    ensures var b := Block(size, data, kind);
            && b[..|data|] == data && (forall i :: |data| <= i < size - 3 ==> b[i] == 0)
            && b[size - 3] == |data| / 256 % 256 && b[size - 2] == |data| % 256 && b[size - 1] == kind
  {
  }

  /** Where the block with this number begins. */
  ghost function Place(size: nat, k: nat): nat {
    if k == 0 then 0 else size + Place(size, k - 1)
  }

  /** The kind of block k, unless it is the last or there is none. */
  ghost predicate MarkedUnlessLast(size: nat, b: seq<byte>, k: nat, kind: byte)
    requires size > 0
  {
    Place(size, k) + size < |b| ==> b[Place(size, k) + size - 1] == kind
  }

  lemma MarkedBehind(size: nat, head: seq<byte>, rest: seq<byte>, k: nat, kind: byte)
    requires |head| == size > 0 && k > 0 && MarkedUnlessLast(size, rest, k - 1, kind)
    ensures MarkedUnlessLast(size, head + rest, k, kind)
  {
  }

  /** Past the first block of a run every block but the last is marked 3, and the last 7. */
  lemma {:induction false} RunKinds(size: nat, data: seq<byte>, k: nat)
    requires size > 3
    ensures var b := JumboBlocks(size, data, false);
            |b| >= size && b[|b| - 1] == 7 && MarkedUnlessLast(size, b, k, 3)
    decreases |data|
  {
    if |data| > size - 3 {
      var head, rest := Block(size, data[..size - 3], JUMBO_MIDDLE), JumboBlocks(size, data[size - 3..], false);
      RunKinds(size, data[size - 3..], if k == 0 then 0 else k - 1);
      if k > 0 {
        MarkedBehind(size, head, rest, k, 3);
      }
    }
  }

  /** Data that fit stand in one block marked 0; longer data in a run marked 1, 3, .., 3, 7. */
  lemma UnitKinds(size: nat, data: seq<byte>, k: nat)
    requires size > 3 && k > 0
    ensures var b := UnitBytes(size, data);
            if |data| <= size - 3 then |b| == size && b[size - 1] == 0
            else |b| >= 2 * size && b[size - 1] == 1 && MarkedUnlessLast(size, b, k, 3) && b[|b| - 1] == 7
  {
    if |data| > size - 3 {
      var head, rest := Block(size, data[..size - 3], JUMBO_START), JumboBlocks(size, data[size - 3..], false);
      RunKinds(size, data[size - 3..], k - 1);
      MarkedBehind(size, head, rest, k, 3);
    }
  }

  /** The k-th block from here is in the file and marked as an end. */
  ghost predicate EndsAt(file: seq<byte>, offset: nat, size: nat, k: nat)
    requires size > 0
  {
    offset + Place(size, k) + size <= |file| && file[offset + Place(size, k) + size - 1] == 7
  }

  ghost predicate EndsBehind(file: seq<byte>, offset: nat, size: nat)
    requires size > 0
  {
    exists k: nat :: EndsAt(file, offset, size, k)
  }

  lemma EndsNextIff(file: seq<byte>, offset: nat, size: nat, next: nat)
    requires size > 0 && next == offset + size <= |file|
    ensures EndsBehind(file, offset, size) <==> file[next - 1] == 7 || EndsBehind(file, next, size)
  {
    assert file[next - 1] == 7 ==> EndsAt(file, offset, size, 0);
    if EndsBehind(file, next, size) {
      var k: nat :| EndsAt(file, next, size, k);
      assert EndsAt(file, offset, size, k + 1);
    }
    if EndsBehind(file, offset, size) {
      var k: nat :| EndsAt(file, offset, size, k);
      assert k > 0 ==> EndsAt(file, next, size, k - 1);
    }
  }

  lemma {:induction false} ForwardIff(file: seq<byte>, offset: nat, size: nat)
    requires size > 3
    ensures JumboForward(file, offset, size).Some? <==> EndsBehind(file, offset, size)
    decreases |file| - offset
  {
    if offset + size <= |file| {
      ForwardIff(file, offset + size, size);
      EndsNextIff(file, offset, size, offset + size);
    }
  }

  /** A unit can be read exactly where a block stands that is marked 0 or 7, or 1
      with an end somewhere behind it. */
  lemma ReadsIff(file: seq<byte>, offset: nat, size: nat)
    requires size > 3
    ensures ReadUnit(file, offset, size).Some? <==>
              && offset + size <= |file|
              && var kind := file[offset + size - 1];
                 kind == 0 || kind == 7 || (kind == 1 && EndsBehind(file, offset + size, size))
  {
    if offset + size <= |file| {
      ForwardIff(file, offset + size, size);
    }
  }
}
