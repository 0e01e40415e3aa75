/** Writing the data section of a table file: entries are packed into blocks,
    an oversized one gets a run of its own, and the index notes the first key
    of every block (src/service/file_writer/writer.go,
    src/service/ss_parser/ss_parser_utils.go). */
module TableWriter {
  import opened Keys
  import opened Codec
  import opened Sequences
  import opened TableBlocks

  function Rendered(size: nat, units: seq<seq<byte>>): (rs: seq<seq<byte>>)
    requires size > 3
    ensures |rs| == |units|
  {
    seq(|units|, i requires 0 <= i < |units| => UnitBytes(size, units[i]))
  }

  /** The units written out one after the other. */
  function Layout(size: nat, units: seq<seq<byte>>): seq<byte>
    requires size > 3
  {
    Flatten(Rendered(size, units))
  }

  lemma LayoutSnoc(size: nat, units: seq<seq<byte>>, u: seq<byte>)
    requires size > 3
    ensures Layout(size, units + [u]) == Layout(size, units) + UnitBytes(size, u)
  {
    assert Rendered(size, units + [u]) == Rendered(size, units) + [UnitBytes(size, u)];
    FlattenConcat(Rendered(size, units), [UnitBytes(size, u)]);
    FlattenOne(UnitBytes(size, u));
  }

  lemma PartAt(parts: seq<seq<byte>>, i: nat, file: seq<byte>)
    requires i < |parts| && Flatten(parts) <= file
    ensures At(file, |Flatten(parts[..i])|, parts[i])
  {
    FlattenAt(parts, i);
    assert parts[i..][1..] == parts[i + 1..];
    AtPrefix(file, Flatten(parts[..i]), parts[i], Flatten(parts[i + 1..]));
  }

  lemma AtPrefix(file: seq<byte>, before: seq<byte>, bytes: seq<byte>, after: seq<byte>)
    requires before + (bytes + after) <= file
    ensures At(file, |before|, bytes)
  {
    var s := before + (bytes + after);
    assert file[..|s|] == s;
    assert file[|before|..|before| + |bytes|] == s[|before|..|before| + |bytes|] == bytes;
  }

  /** Every unit stands where the layout puts it. */
  lemma UnitAt(size: nat, units: seq<seq<byte>>, i: nat, file: seq<byte>)
    requires size > 3 && i < |units| && Layout(size, units) <= file
    ensures At(file, |Layout(size, units[..i])|, UnitBytes(size, units[i]))
  {
    PartAt(Rendered(size, units), i, file);
    assert Rendered(size, units)[..i] == Rendered(size, units[..i]);
  }

  /** What the writer has produced: finished units, and the bytes of the block being filled. */
  datatype Output = Output(units: seq<seq<byte>>, current: seq<byte>) {
    /** Finished or not. */
    function All(): seq<seq<byte>> {
      if current == [] then units else units + [current]
    }

    function Flushed(): Output { Output(All(), []) }

    /** An oversized piece becomes a unit, a fitting one joins the block or opens the next. */
    function Add(size: nat, data: seq<byte>): Output {
      if |data| + 3 > size then Output(All() + [data], [])
      else if |current| + |data| + 3 > size then Output(All(), data)
      else Output(units, current + data)
    }
  }

  function ButLast<T>(s: seq<T>): seq<T>
    requires s != []
  {
    s[..|s| - 1]
  }

  lemma Distribute(a: nat, b: nat, size: nat)
    ensures (a + b) * size == a * size + b * size
  {
  }

  /** The number of chunks is the length divided by the room, rounded up. */
  lemma ChunkCount(len: nat, room: nat, n: nat)
    requires room > 0 && n == (len + room - 1) / room
    ensures n * room >= len && (n > 0 ==> (n - 1) * room < len)
  {
    var m := len + room - 1;
    assert m == n * room + m % room;
    assert (n - 1) * room == n * room - room;
  }

  lemma LastChunk(i: nat, n: nat, len: nat, room: nat)
    requires i < n && n * room >= len && (n - 1) * room < len
    ensures i * room < len && (i == n - 1 <==> len - i * room <= room)
  {
    Distribute(i, 1, room);
    if i < n - 1 {
      Monotone(i + 1, n - 1, room);
    } else {
      Distribute(n - 1, 1, room);
    }
  }

  lemma Monotone(a: nat, b: nat, size: nat)
    requires a <= b
    ensures a * size <= b * size
  {
  }

  /** One block per chunk; the first is marked as the start, the last as the end. */
  method CutJumbo(size: nat, data: seq<byte>) returns (out: seq<byte>, numBlocks: nat)
    requires size > 3 && data != []
    ensures out == JumboBlocks(size, data, true) && |out| == numBlocks * size
  {
    var room := size - 3;
    numBlocks := (|data| + room - 1) / room;
    ChunkCount(|data|, room, numBlocks);
    out := [];
    var dataOffset := 0;
    ghost var left := JumboBlocks(size, data, true);
    assert data[0..] == data;
    for i := 0 to numBlocks
      invariant 0 <= dataOffset <= |data| && |out| == i * size
      invariant i < numBlocks ==> dataOffset == i * room && left == JumboBlocks(size, data[dataOffset..], i == 0)
      invariant JumboBlocks(size, data, true) == out + left && (i == numBlocks ==> left == [])
    {
      LastChunk(i, numBlocks, |data|, room);
      Distribute(i, 1, room);
      OneMore(i, size);
      var end := if dataOffset + room < |data| then dataOffset + room else |data|;
      var chunk := data[dataOffset..end];
      var kind := if i == numBlocks - 1 then JUMBO_END else if i == 0 then JUMBO_START else JUMBO_MIDDLE;
      left := JumboRest(size, data, dataOffset, end, i == 0, i == numBlocks - 1);
      ConcatAssociative(out, Block(size, chunk, kind), left);
      out := out + Block(size, chunk, kind);
      dataOffset := end;
    }
  }

  /** What is left of a jumbo run after the chunk up to `end`. */
  ghost function JumboRest(size: nat, data: seq<byte>, offset: nat, end: nat, first: bool,
                           last: bool): (left: seq<byte>)
    requires size > 3 && offset < end <= |data| && (last <==> |data| - offset <= size - 3)
    requires end == if last then |data| else offset + size - 3
    ensures var kind := if last then JUMBO_END else if first then JUMBO_START else JUMBO_MIDDLE;
            JumboBlocks(size, data[offset..], first) == Block(size, data[offset..end], kind) + left
    ensures left == if last then [] else JumboBlocks(size, data[end..], false)
  {
    SliceOfTail(data, offset, end);
    if last then [] else JumboBlocks(size, data[end..], false)
  }

  lemma SliceOfTail(data: seq<byte>, offset: nat, end: nat)
    requires offset <= end <= |data|
    ensures data[offset..][..end - offset] == data[offset..end] && data[offset..][end - offset..] == data[end..]
    ensures end == |data| ==> data[offset..] == data[offset..end]
  {
  }

  class FileWriter {
    const size: nat
    var file: seq<byte>
    var currentBlock: seq<byte>
    var currentBlockNum: nat
    var offsetInBlock: nat
    var raw: seq<byte>
    var rawBytesWritten: nat
    ghost var units: seq<seq<byte>>

    ghost function Value(): Output
      reads this
    {
      Output(units, currentBlock)
    }

    ghost predicate Valid()
      reads this
    {
      && size > 3 && offsetInBlock == |currentBlock| <= size - 3
      && file == Layout(size, units) && |file| == currentBlockNum * size
      && rawBytesWritten == |raw| && (raw != [] ==> currentBlock == [])
    }

    constructor (size: nat)
      requires size > 3
      ensures Valid() && this.size == size && Value() == Output([], []) && raw == []
    {
      this.size := size;
      raw, rawBytesWritten := [], 0;
      file, currentBlock, currentBlockNum, offsetInBlock, units := [], [], 0, 0, [];
    }

    /** The blocks of one more unit go to the file. */
    method Emit(run: seq<byte>, blocks: nat, ghost data: seq<byte>)
      requires Valid() && run == UnitBytes(size, data) && |run| == blocks * size
      modifies this`file, this`currentBlockNum, this`units
      ensures Valid() && units == old(units) + [data]
    {
      LayoutSnoc(size, units, data);
      Distribute(currentBlockNum, blocks, size);
      units := units + [data];
      file := file + run;
      currentBlockNum := currentBlockNum + blocks;
    }

    method FlushCurrentBlock()
      requires Valid()
      modifies this
      ensures Valid() && Value() == old(Value()).Flushed() && raw == old(raw)
      ensures old(currentBlock) == [] ==> file == old(file)
    {
      if |currentBlock| == 0 {
        return;
      }
      var used := |currentBlock|;
      var block := currentBlock;
      var padLen := size - used - 3;
      if padLen > 0 {
        block := block + Zeros(padLen);
      }
      block := block + [(used / 256) % 256, used % 256, NON_JUMBO];
      Emit(block, 1, currentBlock);
      currentBlock, offsetInBlock := [], 0;
    }

    method WriteJumboData(data: seq<byte>) returns (startBlock: nat)
      requires Valid() && |data| > size - 3
      modifies this
      ensures Valid() && raw == old(raw) && Value() == Output(old(Value()).All() + [data], [])
      ensures startBlock * size == |Layout(size, old(Value()).All())|
    {
      FlushCurrentBlock();
      startBlock := currentBlockNum;
      var run, blocks := CutJumbo(size, data);
      Emit(run, blocks, data);
    }

    /** Returns the number of the first block of the unit that holds the data. */
    method Write(data: seq<byte>, sectionEnd: bool) returns (blockNum: nat)
      requires Valid() && raw == []
      modifies this
      ensures Valid() && raw == []
      ensures var before := if sectionEnd then old(Value()).Flushed() else old(Value());
              && Value() == (if data == [] then before else before.Add(size, data))
              && (data != [] ==> blockNum * size == |Layout(size, ButLast(Value().All()))|)
    {
      if sectionEnd {
        FlushCurrentBlock();
      }
      if |data| == 0 {
        return currentBlockNum;
      }
      if |data| > size - 3 {
        blockNum := WriteJumboData(data);
        return;
      }
      if offsetInBlock + |data| + 3 > size {
        FlushCurrentBlock();
      }
      currentBlock := currentBlock + data;
      offsetInBlock := offsetInBlock + |data|;
      return currentBlockNum;
    }

    /** Bytes behind the blocks, at the offset that is returned. */
    method WriteRaw(data: seq<byte>) returns (startOffset: nat)
      requires Valid()
      modifies this
      ensures Valid() && Value() == old(Value()).Flushed() && raw == old(raw) + data
      ensures startOffset == |file| + |old(raw)| && (old(currentBlock) == [] ==> file == old(file))
    {
      FlushCurrentBlock();
      startOffset := currentBlockNum * size + rawBytesWritten;
      raw := raw + data;
      rawBytesWritten := rawBytesWritten + |data|;
    }
  }

  // ---------------------------------------------------------------- how entries are packed

  /** Pieces are packed greedily: no unit of several pieces is larger than a
      block, and a piece opens a new unit only if the block before it has no
      room for it, or it is too large for any block. */
  lemma PackedGreedily(out: Output, size: nat, data: seq<byte>)
    requires size > 3 && data != []
    ensures var next := out.Add(size, data);
            && (|data| > size - 3 <==> next.current == [])
            && (next.current == [] ==> next.All() == out.All() + [data])
            && (next.current != [] && out.current != [] && |out.current| + |data| <= size - 3 ==>
                  next.units == out.units && next.current == out.current + data)
            && (next.current != [] && (out.current == [] || |out.current| + |data| > size - 3) ==>
                  next.units == out.All() && next.current == data)
  {
    assert [] + data == data;
  }
}
