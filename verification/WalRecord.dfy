/** The on-disk format of write-ahead log records, and reading a log that may be cut off. */
module WalRecord {
  import opened Keys
  import opened Codec

  const HEADER_SIZE: nat := 25

  datatype Op = Put | Delete

  datatype Record = Record(lsn: uint64, op: Op, key: Key, value: Key)

  function OpByte(op: Op): byte {
    if op == Put then 1 else 2
  }

  /** What the encoder accepts, with the sizes the 32-bit length fields can hold. */
  predicate Encodable(r: Record) {
    (r.op == Delete ==> r.value == []) && HEADER_SIZE + |r.key| + |r.value| < 0x1_0000_0000
  }

  /** Everything after the checksum. */
  function Body(r: Record): (b: seq<byte>)
    ensures |b| == 21 + |r.key| + |r.value|
  {
    LittleEndian(HEADER_SIZE + |r.key| + |r.value|, 4) + LittleEndian(r.lsn, 8) + [OpByte(r.op)]
    + LittleEndian(|r.key|, 4) + LittleEndian(|r.value|, 4) + r.key + r.value
  }

  type uint32 = n: int | 0 <= n < 0x1_0000_0000

  type Checksum = seq<byte> -> uint32

  function Encode(crc: Checksum, r: Record): (b: seq<byte>)
    ensures |b| == HEADER_SIZE + |r.key| + |r.value|
  {
    LittleEndian(crc(Body(r)), 4) + Body(r)
  }

  datatype Decoded = Corrupt | Valid(record: Record)

  function Decode(crc: Checksum, buf: seq<byte>): Decoded {
    if |buf| < HEADER_SIZE then Corrupt
    else
      var recordLen := FromLittleEndian(buf[4..8]);
      if recordLen < HEADER_SIZE || |buf| < recordLen then Corrupt
      else
        var rec := buf[..recordLen];
        if crc(rec[4..]) != FromLittleEndian(rec[..4]) then Corrupt
        else if rec[16] != 1 && rec[16] != 2 then Corrupt
        else
          var keyLen, valLen := FromLittleEndian(rec[17..21]), FromLittleEndian(rec[21..25]);
          if HEADER_SIZE + keyLen + valLen != recordLen then Corrupt
          else Valid(Record(FromLittleEndian(rec[8..16]) % 0x1_0000_0000_0000_0000,
                            if rec[16] == 1 then Put else Delete,
                            rec[25..25 + keyLen], rec[25 + keyLen..25 + keyLen + valLen]))
  }

  lemma Pow256Of4()
    ensures Pow256(4) == 0x1_0000_0000
  {
    assert Pow256(2) == 65536;
  }

  lemma FieldsApart(len: seq<byte>, lsn: seq<byte>, op: byte, keyLen: seq<byte>, valLen: seq<byte>,
                    key: Key, value: Key)
    requires |len| == 4 && |lsn| == 8 && |keyLen| == 4 && |valLen| == 4
    ensures var b := len + lsn + [op] + keyLen + valLen + key + value;
            && b[..4] == len && b[4..12] == lsn && b[12] == op && b[13..17] == keyLen && b[17..21] == valLen
            && b[21..21 + |key|] == key && b[21 + |key|..] == value
  {
  }

  /** Where the fields of the body are. */
  lemma BodyFields(r: Record)
    ensures var b := Body(r);
            && b[..4] == LittleEndian(HEADER_SIZE + |r.key| + |r.value|, 4)
            && b[4..12] == LittleEndian(r.lsn, 8)
            && b[12] == OpByte(r.op)
            && b[13..17] == LittleEndian(|r.key|, 4)
            && b[17..21] == LittleEndian(|r.value|, 4)
            && b[21..21 + |r.key|] == r.key
            && b[21 + |r.key|..] == r.value
  {
    FieldsApart(LittleEndian(HEADER_SIZE + |r.key| + |r.value|, 4), LittleEndian(r.lsn, 8), OpByte(r.op),
                LittleEndian(|r.key|, 4), LittleEndian(|r.value|, 4), r.key, r.value);
  }

  lemma ShiftedSlice(a: seq<byte>, b: seq<byte>, i: nat, j: nat)
    requires i <= j <= |b|
    ensures (a + b)[|a| + i..|a| + j] == b[i..j]
  {
  }

  /** The fields of an encoded record, read where the decoder reads them. */
  lemma EncodedFields(crc: Checksum, r: Record)
    requires Encodable(r)
    ensures var b := Encode(crc, r);
            && FromLittleEndian(b[4..8]) == |b|
            && FromLittleEndian(b[..4]) == crc(b[4..])
            && FromLittleEndian(b[8..16]) == r.lsn
            && b[16] == (if r.op == Put then 1 else 2)
            && FromLittleEndian(b[17..21]) == |r.key|
            && FromLittleEndian(b[21..25]) == |r.value|
            && b[25..25 + |r.key|] == r.key
            && b[25 + |r.key|..] == r.value
  {
    Pow256Of4();
    Pow256Of8();
    var body := Body(r);
    var sum := LittleEndian(crc(body), 4);
    var b := Encode(crc, r);
    BodyFields(r);
    assert b[4..] == body && b[..4] == sum;
    ShiftedSlice(sum, body, 0, 4);
    ShiftedSlice(sum, body, 4, 12);
    ShiftedSlice(sum, body, 13, 17);
    ShiftedSlice(sum, body, 17, 21);
    ShiftedSlice(sum, body, 21, 21 + |r.key|);
    assert b[25 + |r.key|..] == body[21 + |r.key|..];
    LittleEndianRoundTrip(crc(body), 4);
    LittleEndianRoundTrip(|b|, 4);
    LittleEndianRoundTrip(r.lsn, 8);
    LittleEndianRoundTrip(|r.key|, 4);
    LittleEndianRoundTrip(|r.value|, 4);
  }

  /** Decoding inverts encoding. */
  lemma RecordRoundTrip(crc: Checksum, r: Record)
    requires Encodable(r)
    ensures Decode(crc, Encode(crc, r)) == Valid(r)
  {
    EncodedFields(crc, r);
    var b := Encode(crc, r);
    assert b[..|b|] == b;
  }

  /** A number of a given width is written in only one way. */
  lemma {:induction false} FromLittleEndianBack(s: seq<byte>)
    ensures FromLittleEndian(s) < Pow256(|s|) && LittleEndian(FromLittleEndian(s), |s|) == s
  {
    if s != [] {
      FromLittleEndianBack(s[1..]);
      assert FromLittleEndian(s) % 256 == s[0] && FromLittleEndian(s) / 256 == FromLittleEndian(s[1..]);
    }
  }

  /** Fields that fill the buffer behind the checksum. */
  lemma FieldsJoin(b: seq<byte>, len: seq<byte>, lsn: seq<byte>, op: byte, keyLen: seq<byte>, valLen: seq<byte>,
                   key: Key, value: Key)
    requires |b| == HEADER_SIZE + |key| + |value| && |len| == 4 && |lsn| == 8 && |keyLen| == 4 && |valLen| == 4
    requires b[4..8] == len && b[8..16] == lsn && b[16] == op && b[17..21] == keyLen && b[21..25] == valLen
    requires b[25..25 + |key|] == key && b[25 + |key|..] == value
    ensures b[4..] == len + lsn + [op] + keyLen + valLen + key + value
  {
  }

  /** The fields of a record, one after the other, behind the checksum. */
  ghost predicate HasFields(b: seq<byte>, r: Record, len: nat) {
    && len == HEADER_SIZE + |r.key| + |r.value| == |b| && b[4..8] == LittleEndian(len, 4)
    && b[8..16] == LittleEndian(r.lsn, 8) && b[16] == OpByte(r.op)
    && b[17..21] == LittleEndian(|r.key|, 4) && b[21..25] == LittleEndian(|r.value|, 4)
    && b[25..25 + |r.key|] == r.key && b[25 + |r.key|..] == r.value
  }

  lemma FieldsMakeBody(b: seq<byte>, r: Record, len: nat)
    requires HasFields(b, r, len)
    ensures b[4..] == Body(r)
  {
    FieldsJoin(b, LittleEndian(len, 4), LittleEndian(r.lsn, 8), OpByte(r.op), LittleEndian(|r.key|, 4),
               LittleEndian(|r.value|, 4), r.key, r.value);
  }

  /** A buffer with the fields of a record is its encoding. */
  lemma FieldsMakeRecord(crc: Checksum, b: seq<byte>, r: Record, len: nat)
    requires HasFields(b, r, len) && b[..4] == LittleEndian(crc(b[4..]), 4)
    ensures b == Encode(crc, r)
  {
    FieldsMakeBody(b, r, len);
    BodyThere(crc, b, r);
  }

  lemma BodyThere(crc: Checksum, b: seq<byte>, r: Record)
    requires |b| >= 4 && b[4..] == Body(r) && b[..4] == LittleEndian(crc(b[4..]), 4)
    ensures b == Encode(crc, r)
  {
    assert b == b[..4] + b[4..];
  }

  /** A number field holds its number in the only way it can be written. */
  lemma Field(b: seq<byte>, i: nat, j: nat)
    requires i <= j <= |b|
    ensures b[i..j] == LittleEndian(FromLittleEndian(b[i..j]), j - i)
  {
    FromLittleEndianBack(b[i..j]);
  }

  /** Eight bytes hold any number there is room for. */
  lemma NumberField(b: seq<byte>, i: nat, n: uint64)
    requires i + 8 <= |b| && FromLittleEndian(b[i..i + 8]) % 0x1_0000_0000_0000_0000 == n
    ensures b[i..i + 8] == LittleEndian(n, 8)
  {
    FromLittleEndianBack(b[i..i + 8]);
    assert FromLittleEndian(b[i..i + 8]) == n by {
      Pow256Of8();
    }
  }

  /** The fields of a buffer that is decoded as a whole. */
  lemma DecodedFields(crc: Checksum, b: seq<byte>, r: Record)
    requires Decode(crc, b) == Valid(r) && |b| == FromLittleEndian(b[4..8])
    ensures |b| == HEADER_SIZE + |r.key| + |r.value|
    ensures FromLittleEndian(b[0..4]) == crc(b[4..]) && b[16] == OpByte(r.op)
    ensures FromLittleEndian(b[8..16]) % 0x1_0000_0000_0000_0000 == r.lsn
    ensures FromLittleEndian(b[17..21]) == |r.key| && FromLittleEndian(b[21..25]) == |r.value|
    ensures b[25..25 + |r.key|] == r.key && b[25 + |r.key|..] == r.value
  {
    assert b[..|b|] == b && b[..4] == b[0..4];
  }

  lemma WholeIsEncoded(crc: Checksum, b: seq<byte>, r: Record)
    requires Decode(crc, b) == Valid(r) && |b| == FromLittleEndian(b[4..8])
    ensures b == Encode(crc, r)
  {
    DecodedFields(crc, b, r);
    Field(b, 0, 4);
    Field(b, 4, 8);
    NumberField(b, 8, r.lsn);
    Field(b, 17, 21);
    Field(b, 21, 25);
    assert b[..4] == b[0..4];
    FieldsMakeRecord(crc, b, r, |b|);
  }

  lemma DecodeCuts(crc: Checksum, b: seq<byte>)
    requires Decode(crc, b).Valid?
    ensures var n := FromLittleEndian(b[4..8]);
            n <= |b| && b[..n][4..8] == b[4..8] && Decode(crc, b[..n]) == Decode(crc, b)
  {
    var n := FromLittleEndian(b[4..8]);
    assert b[..n][..n] == b[..n] && b[..n][4..8] == b[4..8];
  }

  /** Only what the encoder writes is decoded: a record is accepted exactly from
      its own encoding, checksum included, whatever follows. */
  lemma DecodedIsEncoded(crc: Checksum, b: seq<byte>, r: Record)
    requires Decode(crc, b) == Valid(r)
    ensures |Encode(crc, r)| <= |b| && b[..|Encode(crc, r)|] == Encode(crc, r)
  {
    DecodeCuts(crc, b);
    WholeIsEncoded(crc, b[..FromLittleEndian(b[4..8])], r);
  }

  // ---------------------------------------------------------------- reading a segment

  datatype Read = EndOfLog | Next(record: Record, rest: seq<byte>)

  /** One call of the segment reader. Anything that does not look like a
      complete record ends the log. */
  function ReadNext(crc: Checksum, data: seq<byte>): (r: Read)
    ensures r.Next? ==> |r.rest| < |data|
  {
    if |data| < 8 then EndOfLog
    else
      var recordLen := FromLittleEndian(data[4..8]);
      if recordLen < 8 || |data| < recordLen then EndOfLog
      else
        var d := Decode(crc, data[..recordLen]);
        if d.Corrupt? then EndOfLog else Next(d.record, data[recordLen..])
  }

  function ReadAll(crc: Checksum, data: seq<byte>): seq<Record>
    decreases |data|
  {
    var r := ReadNext(crc, data);
    if r.EndOfLog? then [] else [r.record] + ReadAll(crc, r.rest)
  }

  function EncodeAll(crc: Checksum, rs: seq<Record>): seq<byte> {
    if rs == [] then [] else Encode(crc, rs[0]) + EncodeAll(crc, rs[1..])
  }

  /** How many whole records fit into the first n bytes. */
  function Whole(crc: Checksum, rs: seq<Record>, n: nat): (j: nat)
    ensures j <= |rs|
  {
    if rs == [] || n < |Encode(crc, rs[0])| then 0 else 1 + Whole(crc, rs[1..], n - |Encode(crc, rs[0])|)
  }

  lemma ReadNextWhole(crc: Checksum, r: Record, rest: seq<byte>)
    requires Encodable(r)
    ensures ReadNext(crc, Encode(crc, r) + rest) == Next(r, rest)
  {
    EncodedFields(crc, r);
    RecordRoundTrip(crc, r);
    var b := Encode(crc, r);
    var data := b + rest;
    assert data[4..8] == b[4..8];
    assert data[..|b|] == b && data[|b|..] == rest;
  }

  lemma ReadNextTorn(crc: Checksum, r: Record, n: nat)
    requires Encodable(r) && n < |Encode(crc, r)|
    ensures ReadNext(crc, Encode(crc, r)[..n]) == EndOfLog
  {
    EncodedFields(crc, r);
    var b := Encode(crc, r);
    if n >= 8 {
      assert b[..n][4..8] == b[4..8];
    }
  }

  /** A whole first record is read and the reader goes on behind it. */
  lemma ReplayWhole(crc: Checksum, r: Record, rest: seq<byte>)
    requires Encodable(r)
    ensures ReadAll(crc, Encode(crc, r) + rest) == [r] + ReadAll(crc, rest)
  {
    ReadNextWhole(crc, r, rest);
  }

  /** An incomplete first record ends the replay. */
  lemma ReplayTorn(crc: Checksum, r: Record, n: nat)
    requires Encodable(r) && n < |Encode(crc, r)|
    ensures ReadAll(crc, Encode(crc, r)[..n]) == []
  {
    ReadNextTorn(crc, r, n);
  }

  lemma CutConcat(a: seq<byte>, b: seq<byte>, n: nat)
    requires n <= |a| + |b|
    ensures n <= |a| ==> (a + b)[..n] == a[..n]
    ensures |a| <= n ==> (a + b)[..n] == a + b[..n - |a|]
  {
  }

  lemma TakeOneMore<T>(s: seq<T>, j: nat)
    requires j < |s|
    ensures s[..j + 1] == [s[0]] + s[1..][..j]
  {
  }

  /** A log cut off anywhere replays to exactly the records that are completely there. */
  lemma {:induction false} TornLogReplays(crc: Checksum, rs: seq<Record>, n: nat)
    requires n <= |EncodeAll(crc, rs)| && forall r :: r in rs ==> Encodable(r)
    ensures ReadAll(crc, EncodeAll(crc, rs)[..n]) == rs[..Whole(crc, rs, n)]
  {
    if rs != [] {
      var b := Encode(crc, rs[0]);
      var tail := EncodeAll(crc, rs[1..]);
      CutConcat(b, tail, n);
      if n < |b| {
        ReplayTorn(crc, rs[0], n);
      } else {
        ReplayWhole(crc, rs[0], tail[..n - |b|]);
        TornLogReplays(crc, rs[1..], n - |b|);
        TakeOneMore(rs, Whole(crc, rs[1..], n - |b|));
      }
    }
  }

  /** Whatever lies within the first n bytes is among the whole records. */
  lemma {:induction false} WholeCovers(crc: Checksum, rs: seq<Record>, k: nat, n: nat)
    requires k <= |rs| && |EncodeAll(crc, rs[..k])| <= n
    ensures k <= Whole(crc, rs, n)
  {
    if k > 0 {
      assert rs[..k][0] == rs[0] && rs[..k][1..] == rs[1..][..k - 1];
      WholeCovers(crc, rs[1..], k - 1, n - |Encode(crc, rs[0])|);
    }
  }

  // ---------------------------------------------------------------- filling the buffer

  datatype EncodeResult = InvalidOp | DeleteWithValue | Encoded(bytes: seq<byte>)

  /** Put s at off, continuing the bytes laid out between base and off. */
  method CopyInto(buf: array<byte>, ghost base: nat, off: nat, s: seq<byte>, ghost laid: seq<byte>)
    requires base <= off && off + |s| <= buf.Length && buf[base..off] == laid
    modifies buf
    ensures buf[base..off + |s|] == laid + s
    ensures buf[off + |s|..] == old(buf[off + |s|..])
  {
    for i := 0 to |s|
      invariant buf[base..off + i] == laid + s[..i]
      invariant buf[off + |s|..] == old(buf[off + |s|..])
    {
      buf[off + i] := s[i];
    }
  }

  /** Lay out everything behind the checksum. */
  method FillBody(buf: array<byte>, r: Record)
    requires buf.Length == HEADER_SIZE + |r.key| + |r.value|
    modifies buf
    ensures buf[4..] == Body(r)
  {
    var size, lsn := LittleEndian(buf.Length, 4), LittleEndian(r.lsn, 8);
    var op, keyLen, valueLen := [OpByte(r.op)], LittleEndian(|r.key|, 4), LittleEndian(|r.value|, 4);
    CopyInto(buf, 4, 4, size, []);
    assert [] + size == size;
    CopyInto(buf, 4, 8, lsn, size);
    CopyInto(buf, 4, 16, op, size + lsn);
    CopyInto(buf, 4, 17, keyLen, size + lsn + op);
    CopyInto(buf, 4, 21, valueLen, size + lsn + op + keyLen);
    CopyInto(buf, 4, HEADER_SIZE, r.key, size + lsn + op + keyLen + valueLen);
    CopyInto(buf, 4, HEADER_SIZE + |r.key|, r.value, size + lsn + op + keyLen + valueLen + r.key);
    assert buf[4..] == buf[4..HEADER_SIZE + |r.key| + |r.value|];
  }

  /** The record is laid out in one buffer; the checksum over the rest goes in front, last. */
  method EncodeRecord(crc: Checksum, op: byte, key: Key, value: Key, lsn: uint64) returns (r: EncodeResult)
    ensures op != 1 && op != 2 ==> r == InvalidOp
    ensures op == 2 && value != [] ==> r == DeleteWithValue
    ensures op == 1 ==> r == Encoded(Encode(crc, Record(lsn, Put, key, value)))
    ensures op == 2 && value == [] ==> r == Encoded(Encode(crc, Record(lsn, Delete, key, value)))
  {
    if op != 1 && op != 2 {
      return InvalidOp;
    }
    if op == 2 && |value| != 0 {
      return DeleteWithValue;
    }
    var rec := Record(lsn, if op == 1 then Put else Delete, key, value);
    var buf := new byte[HEADER_SIZE + |key| + |value|](_ => 0);
    FillBody(buf, rec);
    CopyInto(buf, 0, 0, LittleEndian(crc(buf[4..]), 4), []);
    assert buf[..] == buf[0..4] + buf[4..];
    return Encoded(buf[..]);
  }

  // ---------------------------------------------------------------- nothing but whole records is replayed

  lemma ReadNextIsEncoded(crc: Checksum, data: seq<byte>)
    requires ReadNext(crc, data).Next?
    ensures data == Encode(crc, ReadNext(crc, data).record) + ReadNext(crc, data).rest
  {
    var n := FromLittleEndian(data[4..8]);
    var r := ReadNext(crc, data).record;
    DecodedIsEncoded(crc, data[..n], r);
    assert data[..n][4..8] == data[4..8];
    assert data == data[..n] + data[n..];
  }

  /** What is replayed stands, whole and with its checksum, at the front of the
      data, and behind it there is no further whole record. */
  lemma {:induction false} ReplayIsWhatIsThere(crc: Checksum, data: seq<byte>)
    ensures EncodeAll(crc, ReadAll(crc, data)) <= data
    ensures var rest := data[|EncodeAll(crc, ReadAll(crc, data))|..];
            forall r :: Encodable(r) ==> !(Encode(crc, r) <= rest)
    decreases |data|
  {
    var next := ReadNext(crc, data);
    if next.EndOfLog? {
      forall r | Encodable(r) ensures !(Encode(crc, r) <= data) {
        if Encode(crc, r) <= data {
          assert data == Encode(crc, r) + data[|Encode(crc, r)|..];
          ReadNextWhole(crc, r, data[|Encode(crc, r)|..]);
        }
      }
    } else {
      ReadNextIsEncoded(crc, data);
      ReplayIsWhatIsThere(crc, next.rest);
      var rs := ReadAll(crc, next.rest);
      assert ReadAll(crc, data) == [next.record] + rs && ([next.record] + rs)[1..] == rs;
      var a, b := Encode(crc, next.record), EncodeAll(crc, rs);
      assert data[|a + b|..] == next.rest[|b|..];
    }
  }
}
