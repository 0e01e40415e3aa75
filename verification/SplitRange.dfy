/** Deriving sub-ranges for the Merkle walk by interpolating between key prefixes. */
module SplitRange {
  import opened Keys
  import opened Codec

  /** A half-open key interval; an empty end means "unbounded". */
  datatype Bucket = Bucket(start: Key, end: Key)

  predicate InBucket(b: Bucket, k: Key) {
    !Less(k, b.start) && (b.end == [] || Less(k, b.end))
  }

  datatype SplitResult = BadCount | Split(buckets: seq<Bucket>)

  function Padded(s: Key, pad: byte): (r: Key)
    ensures |r| == 8
  {
    if |s| >= 8 then s[..8] else s + seq(8 - |s|, _ => pad)
  }

  function PrefixValue(s: Key, pad: byte): (v: uint64) {
    Pow256Of8();
    FromBigEndianRoundTrip(Padded(s, pad));
    FromBigEndian(Padded(s, pad))
  }

  function Bytes8(v: uint64): (r: Key)
    ensures |r| == 8
  {
    BigEndian(v, 8)
  }

  function Lowest(start: Key): uint64 {
    PrefixValue(start, 0x00)
  }

  function Highest(end: Key): uint64 {
    if end == [] then MAX_UINT64 else PrefixValue(end, 0xFF)
  }

  function StepOf(lo: uint64, hi: uint64, n: nat): (step: nat)
    requires lo < hi && n > 1
    ensures step >= 1
  {
    if (hi - lo) / n == 0 then 1 else (hi - lo) / n
  }

  /** How many interior boundaries fit below hi. */
  function CountOf(lo: uint64, hi: uint64, n: nat): nat
    requires lo < hi && n > 1
  {
    if hi - lo >= n then n - 1 else hi - lo - 1
  }

  lemma StepFits(lo: uint64, hi: uint64, n: nat, i: nat)
    requires lo < hi && n > 1 && i <= CountOf(lo, hi, n)
    ensures 0 <= StepOf(lo, hi, n) * i < hi - lo
  {
    var step := StepOf(lo, hi, n);
    if hi - lo >= n {
      assert step == (hi - lo) / n;
      assert step * n <= hi - lo;
      assert step * i <= step * (n - 1) < step * n;
    }
  }

  /** The i-th interpolated value; never more than 64 bits. */
  function ValueAt(start: Key, end: Key, n: nat, i: nat): (v: uint64)
    requires Lowest(start) < Highest(end) && n > 1 && i <= CountOf(Lowest(start), Highest(end), n)
    ensures v < Highest(end)
  {
    StepFits(Lowest(start), Highest(end), n, i);
    Lowest(start) + StepOf(Lowest(start), Highest(end), n) * i
  }

  predicate Divisible(start: Key, end: Key, n: nat) {
    n > 1 && Lowest(start) < Highest(end)
  }

  function Interior(start: Key, end: Key, n: nat): nat {
    if Divisible(start, end, n) then CountOf(Lowest(start), Highest(end), n) else 0
  }

  /** Boundary 0 is start, the last one is end, the others are interpolated. */
  function BoundaryAt(start: Key, end: Key, n: nat, i: nat): Key
    requires i <= Interior(start, end, n) + 1
  {
    if i == 0 then start
    else if i == Interior(start, end, n) + 1 then end
    else Bytes8(ValueAt(start, end, n, i))
  }

  function Buckets(start: Key, end: Key, n: nat): (r: seq<Bucket>)
    ensures |r| == Interior(start, end, n) + 1
  {
    seq(Interior(start, end, n) + 1, i requires 0 <= i <= Interior(start, end, n) =>
      Bucket(BoundaryAt(start, end, n, i), BoundaryAt(start, end, n, i + 1)))
  }

  // ---------------------------------------------------------------- order of the boundaries

  /** A key whose first eight bytes are below v is below v's encoding. */
  lemma PrefixBelow(s: Key, v: uint64)
    requires PrefixValue(s, 0x00) < v
    ensures Less(s, Bytes8(v))
  {
    Pow256Of8();
    var p := Padded(s, 0x00);
    FromBigEndianRoundTrip(p);
    BigEndianOrder(PrefixValue(s, 0x00), v, 8);
    assert Less(p, Bytes8(v));
    if |s| >= 8 {
      assert s == s[..8] + s[8..];
      LessExtendLeft(p, Bytes8(v), s[8..]);
    } else {
      OrderLaws();
      PrefixAtMost(s, p);
    }
  }

  lemma {:induction false} LessExtendLeft(a: Key, b: Key, x: Key)
    requires |a| == |b| && Less(a, b)
    ensures Less(a + x, b)
  {
    assert (a + x)[1..] == a[1..] + x;
    if a[0] == b[0] {
      LessExtendLeft(a[1..], b[1..], x);
    }
  }

  lemma {:induction false} PrefixAtMost(s: Key, p: Key)
    requires |s| <= |p| && p[..|s|] == s
    ensures AtMost(s, p)
  {
    if s != [] {
      assert p[0] == p[..|s|][0] && p[1..][..|s| - 1] == p[..|s|][1..];
      PrefixAtMost(s[1..], p[1..]);
      assert s == [s[0]] + s[1..] && p == [p[0]] + p[1..];
    }
  }

  /** An encoded value lies below a bounded end exactly when it is below the
      end's prefix padded with zeros. */
  lemma BelowEndIff(v: uint64, end: Key)
    requires end != []
    ensures AtMost(Bytes8(v), end) <==> (v < PrefixValue(end, 0x00) || (v == PrefixValue(end, 0x00) && |end| >= 8))
  {
    OrderLaws();
    Pow256Of8();
    var p := Padded(end, 0x00);
    FromBigEndianRoundTrip(p);
    BigEndianOrder(v, PrefixValue(end, 0x00), 8);
    BigEndianOrder(PrefixValue(end, 0x00), v, 8);
    BigEndianRoundTrip(v, 8);
    var b := Bytes8(v);
    if |end| >= 8 {
      assert end == p + end[8..];
      PrefixAtMost(p, end);
      if Less(p, b) {
        LessExtendLeft(p, b, end[8..]);
      }
    } else {
      PrefixAtMost(end, p);
      if Less(b, p) {
        LessPadded(b, end, p[|end|..]);
      }
    }
  }

  /** Below a zero-padded string, at full length, means below the string itself. */
  lemma {:induction false} LessPadded(b: Key, s: Key, zeros: Key)
    requires |b| == |s| + |zeros| && Less(b, s + zeros) && forall x :: x in zeros ==> x == 0
    ensures Less(b, s)
  {
    if s == [] {
      assert s + zeros == zeros;
      NothingBelowZeros(b, zeros);
    } else {
      assert (s + zeros)[1..] == s[1..] + zeros;
      if b[0] == s[0] {
        LessPadded(b[1..], s[1..], zeros);
      }
    }
  }

  lemma {:induction false} NothingBelowZeros(b: Key, zeros: Key)
    requires |b| == |zeros| && forall x :: x in zeros ==> x == 0
    ensures !Less(b, zeros)
  {
    if b != [] {
      assert zeros[0] in zeros && forall x :: x in zeros[1..] ==> x in zeros;
      NothingBelowZeros(b[1..], zeros[1..]);
    }
  }

  lemma ValuesIncrease(start: Key, end: Key, n: nat, i: nat, j: nat)
    requires Divisible(start, end, n) && i < j <= CountOf(Lowest(start), Highest(end), n)
    ensures ValueAt(start, end, n, i) < ValueAt(start, end, n, j)
    ensures ValueAt(start, end, n, 0) == Lowest(start)
  {
    var step := StepOf(Lowest(start), Highest(end), n);
    assert step * i < step * j;
    assert step * 0 == 0;
  }

  /** The interior boundaries are strictly increasing and all above start. */
  lemma BoundariesIncrease(start: Key, end: Key, n: nat, i: nat, j: nat)
    requires i < j <= Interior(start, end, n)
    ensures Less(BoundaryAt(start, end, n, i), BoundaryAt(start, end, n, j))
  {
    ValuesIncrease(start, end, n, i, j);
    if i == 0 {
      PrefixBelow(start, ValueAt(start, end, n, j));
    } else {
      Pow256Of8();
      BigEndianOrder(ValueAt(start, end, n, i), ValueAt(start, end, n, j), 8);
    }
  }

  // ---------------------------------------------------------------- the split as a partition

  /** Consecutive buckets meet, the first starts at start, the last ends at end,
      and every key of [start, end) lies in exactly one of them. */
  ghost predicate Covers(buckets: seq<Bucket>, start: Key, end: Key) {
    && buckets != [] && buckets[0].start == start && buckets[|buckets| - 1].end == end
    && (forall i :: 0 < i < |buckets| ==> buckets[i].start == buckets[i - 1].end)
    && (forall k: Key :: InBucket(Bucket(start, end), k) ==> exists i :: 0 <= i < |buckets| && InBucket(buckets[i], k))
    && (forall k: Key, i, j :: 0 <= i < j < |buckets| ==> !(InBucket(buckets[i], k) && InBucket(buckets[j], k)))
  }

  /** No bucket reaches outside [start, end). */
  ghost predicate Contained(buckets: seq<Bucket>, start: Key, end: Key) {
    forall i, k: Key :: 0 <= i < |buckets| && InBucket(buckets[i], k) ==> InBucket(Bucket(start, end), k)
  }

  lemma BucketOf(start: Key, end: Key, n: nat, k: Key) returns (i: nat)
    requires InBucket(Bucket(start, end), k)
    ensures i <= Interior(start, end, n) && InBucket(Buckets(start, end, n)[i], k)
  {
    i := 0;
    while i < Interior(start, end, n) && !Less(k, BoundaryAt(start, end, n, i + 1))
      invariant i <= Interior(start, end, n) && !Less(k, BoundaryAt(start, end, n, i))
    {
      i := i + 1;
    }
  }

  lemma BucketUnique(start: Key, end: Key, n: nat, k: Key, i: nat, j: nat)
    requires i < j <= Interior(start, end, n)
    requires InBucket(Buckets(start, end, n)[i], k)
    ensures !InBucket(Buckets(start, end, n)[j], k)
  {
    OrderLaws();
    if i + 1 < j {
      BoundariesIncrease(start, end, n, i + 1, j);
    }
  }

  lemma BucketsChain(start: Key, end: Key, n: nat)
    requires n >= 1
    ensures var buckets := Buckets(start, end, n);
            && 0 < |buckets| <= n && buckets[0].start == start && buckets[|buckets| - 1].end == end
            && forall i :: 0 < i < |buckets| ==> buckets[i].start == buckets[i - 1].end
  {
  }

  /** The split of any range is a cover, and has at most n buckets. */
  lemma SplitCovers(start: Key, end: Key, n: nat)
    requires n >= 1
    ensures |Buckets(start, end, n)| <= n && Covers(Buckets(start, end, n), start, end)
  {
    BucketsChain(start, end, n);
    var buckets := Buckets(start, end, n);
    assert forall k: Key :: InBucket(Bucket(start, end), k) ==>
        exists i :: 0 <= i < |buckets| && InBucket(buckets[i], k) by {
      forall k: Key | InBucket(Bucket(start, end), k)
        ensures exists i :: 0 <= i < |buckets| && InBucket(buckets[i], k)
      {
        var i := BucketOf(start, end, n, k);
      }
    }
    assert forall k: Key, i, j :: 0 <= i < j < |buckets| ==> !(InBucket(buckets[i], k) && InBucket(buckets[j], k)) by {
      forall k: Key, i, j | 0 <= i < j < |buckets| ensures !(InBucket(buckets[i], k) && InBucket(buckets[j], k)) {
        if InBucket(buckets[i], k) {
          BucketUnique(start, end, n, k, i, j);
        }
      }
    }
  }

  /** The last interpolated value stays below the end; always so for an
      unbounded end and for an end of eight bytes or more. */
  predicate EndRespected(start: Key, end: Key, n: nat) {
    || Interior(start, end, n) == 0
    || end == []
    || ValueAt(start, end, n, Interior(start, end, n)) < PrefixValue(end, 0x00)
  }

  lemma LongEndRespected(start: Key, end: Key, n: nat)
    requires |end| >= 8 || end == []
    ensures EndRespected(start, end, n)
  {
    if end != [] && Interior(start, end, n) != 0 {
      assert Padded(end, 0xFF) == Padded(end, 0x00);
    }
  }

  lemma RespectedIffBelowEnd(start: Key, end: Key, n: nat)
    requires Interior(start, end, n) != 0 && end != []
    ensures EndRespected(start, end, n) <==> AtMost(BoundaryAt(start, end, n, Interior(start, end, n)), end)
  {
    BelowEndIff(ValueAt(start, end, n, Interior(start, end, n)), end);
    assert |end| >= 8 ==> Padded(end, 0xFF) == Padded(end, 0x00);
  }

  lemma PrefixOfBytes(v: uint64)
    ensures PrefixValue(Bytes8(v), 0x00) == v
  {
    Pow256Of8();
    BigEndianRoundTrip(v, 8);
    assert Padded(Bytes8(v), 0x00) == Bytes8(v);
  }

  lemma StrictlyBelowEnd(v: uint64, end: Key)
    requires |end| >= 8 && v < PrefixValue(end, 0x00)
    ensures Less(Bytes8(v), end)
  {
    BelowEndIff(v, end);
    PrefixOfBytes(v);
  }

  lemma LastBoundaryBelowEnd(start: Key, end: Key, n: nat)
    requires Interior(start, end, n) != 0 && |end| >= 8
    ensures Less(BoundaryAt(start, end, n, Interior(start, end, n)), end)
  {
    LongEndRespected(start, end, n);
    StrictlyBelowEnd(ValueAt(start, end, n, Interior(start, end, n)), end);
  }

  lemma BucketInside(start: Key, end: Key, n: nat, i: nat, k: Key)
    requires i <= Interior(start, end, n) && InBucket(Buckets(start, end, n)[i], k)
    requires end == [] || Interior(start, end, n) == 0
             || AtMost(BoundaryAt(start, end, n, Interior(start, end, n)), end)
    ensures InBucket(Bucket(start, end), k)
  {
    var m := Interior(start, end, n);
    var lower, upper := BoundaryAt(start, end, n, i), BoundaryAt(start, end, n, i + 1);
    assert Buckets(start, end, n)[i] == Bucket(lower, upper);
    assert AtMost(start, lower) by {
      if i > 0 { BoundariesIncrease(start, end, n, 0, i); }
    }
    assert end == [] || AtMost(upper, end) by {
      if i + 1 < m {
        BoundariesIncrease(start, end, n, i + 1, m);
        OrderLaws();
      }
    }
    assert i < m ==> upper != [];
    OrderLaws();
  }

  lemma OverrunWitness(start: Key, end: Key, n: nat) returns (k: Key)
    requires end != [] && Interior(start, end, n) != 0
    requires !AtMost(BoundaryAt(start, end, n, Interior(start, end, n)), end)
    ensures InBucket(Buckets(start, end, n)[Interior(start, end, n) - 1], k) && !InBucket(Bucket(start, end), k)
  {
    var m := Interior(start, end, n);
    BoundariesIncrease(start, end, n, m - 1, m);
    var before := BoundaryAt(start, end, n, m - 1);
    k := if AtMost(before, end) then end else before;
    var last := BoundaryAt(start, end, n, m);
    LessTotal(last, end);
    LessIrreflexive(end);
    LessIrreflexive(before);
    if Less(end, before) && Less(before, end) {
      LessTransitive(end, before, end);
    }
  }

  /** The buckets stay inside the range exactly when the last interpolated
      value does; short ends, padded with 0xFF, can be overrun. */
  lemma ContainedIff(start: Key, end: Key, n: nat)
    ensures Contained(Buckets(start, end, n), start, end) <==> EndRespected(start, end, n)
  {
    var m := Interior(start, end, n);
    if m != 0 && end != [] {
      RespectedIffBelowEnd(start, end, n);
    }
    if EndRespected(start, end, n) {
      var buckets := Buckets(start, end, n);
      forall i, k: Key | 0 <= i < |buckets| && InBucket(buckets[i], k) ensures InBucket(Bucket(start, end), k) {
        BucketInside(start, end, n, i, k);
      }
    } else {
      var k := OverrunWitness(start, end, n);
    }
  }

  /** The range ["a", "b") cut in four: the third boundary lies above "b". */
  lemma ShortEndOverrun()
    ensures !Contained(Buckets([0x61], [0x62], 4), [0x61], [0x62])
  {
    var start, end: Key := [0x61], [0x62];
    var a, b: Key := [0x61, 0, 0, 0, 0, 0, 0, 0], [0x62, 0xFF, 0xFF, 0xFF, 0xFF, 0xFF, 0xFF, 0xFF];
    var c: Key := [0x62, 0, 0, 0, 0, 0, 0, 0];
    assert Padded(start, 0x00) == a && Padded(end, 0xFF) == b && Padded(end, 0x00) == c;
    ValueOfEight(0x61, 0);
    ValueOfEight(0x62, 0xFF);
    ValueOfEight(0x62, 0);
    assert Lowest(start) == 0x6100_0000_0000_0000 && Highest(end) == 0x62FF_FFFF_FFFF_FFFF;
    assert CountOf(Lowest(start), Highest(end), 4) == 3;
    assert StepOf(Lowest(start), Highest(end), 4) == 0x7FFF_FFFF_FFFF_FFFF / 0x100;
    assert ValueAt(start, end, 4, 3) == 0x6100_0000_0000_0000 + 3 * (0x7FFF_FFFF_FFFF_FFFF / 0x100);
    ContainedIff(start, end, 4);
  }

  lemma AppendByte(s: Key, y: byte)
    ensures FromBigEndian(s + [y]) == 256 * FromBigEndian(s) + y
  {
    assert (s + [y])[..|s|] == s;
  }

  lemma ValueOfEight(x: byte, y: byte)
    ensures FromBigEndian([x, y, y, y, y, y, y, y]) == 0x100_0000_0000_0000 * x + 0x1_0101_0101_0101 * y
  {
    var s1: Key := [] + [x];
    AppendByte([], x);
    var s2 := s1 + [y];
    AppendByte(s1, y);
    var s3 := s2 + [y];
    AppendByte(s2, y);
    var s4 := s3 + [y];
    AppendByte(s3, y);
    var s5 := s4 + [y];
    AppendByte(s4, y);
    var s6 := s5 + [y];
    AppendByte(s5, y);
    var s7 := s6 + [y];
    AppendByte(s6, y);
    var s8 := s7 + [y];
    AppendByte(s7, y);
    assert s8 == [x, y, y, y, y, y, y, y];
  }

  lemma BucketAt(start: Key, end: Key, n: nat, i: nat)
    requires i <= Interior(start, end, n)
    ensures Buckets(start, end, n)[..i + 1] == Buckets(start, end, n)[..i]
              + [Bucket(BoundaryAt(start, end, n, i), BoundaryAt(start, end, n, i + 1))]
  {
  }

  /** The boundary loop. All arithmetic stays within 64 bits. */
  method Interpolate(start: Key, end: Key, n: nat, lo: uint64, hi: uint64) returns (buckets: seq<Bucket>)
    requires n > 1 && lo == Lowest(start) && hi == Highest(end) && lo < hi
    ensures buckets == Buckets(start, end, n)
  {
    var step: uint64 := (hi - lo) / n;
    if step == 0 {
      step := 1;
    }
    ghost var all, m := Buckets(start, end, n), Interior(start, end, n);
    buckets := [];
    var prev := start;
    var i := 1;
    while i < n
      invariant 1 <= i <= m + 1 && i <= n
      invariant buckets == all[..i - 1] && prev == BoundaryAt(start, end, n, i - 1)
    {
      BoundaryFits(lo, hi, n, i);
      var boundaryValue: uint64 := lo + step * i;
      if boundaryValue >= hi {
        break;
      }
      var boundary := Bytes8(boundaryValue);
      assert boundary == BoundaryAt(start, end, n, i);
      BucketAt(start, end, n, i - 1);
      buckets := buckets + [Bucket(prev, boundary)];
      prev := boundary;
      i := i + 1;
    }
    BucketAt(start, end, n, m);
    buckets := buckets + [Bucket(prev, end)];
  }

  method SplitKeys(start: Key, end: Key, n: int) returns (r: SplitResult)
    ensures n <= 0 ==> r == BadCount
    ensures n > 0 ==> r == Split(Buckets(start, end, n))
  {
    if n <= 0 {
      return BadCount;
    }
    var lo: uint64 := PrefixValue(start, 0x00);
    var hi: uint64 := MAX_UINT64;
    if end != [] {
      hi := PrefixValue(end, 0xFF);
    }
    if n == 1 || hi <= lo {
      return Split([Bucket(start, end)]);
    }
    var buckets := Interpolate(start, end, n, lo, hi);
    return Split(buckets);
  }

  /** One step past the last boundary still fits, and lands at or above hi. */
  lemma BoundaryFits(lo: uint64, hi: uint64, n: nat, i: nat)
    requires lo < hi && n > 1 && 1 <= i < n && i <= CountOf(lo, hi, n) + 1
    ensures lo + StepOf(lo, hi, n) * i <= hi
    ensures lo + StepOf(lo, hi, n) * i < hi <==> i <= CountOf(lo, hi, n)
  {
    if i <= CountOf(lo, hi, n) {
      StepFits(lo, hi, n, i);
    }
  }

  // ---------------------------------------------------------------- how even the split is

  /** The first eight bytes as a number, missing bytes read as zeros below and
      as ones above; the whole range if there is no end. */
  ghost predicate Spans(start: Key, end: Key, lo: nat, hi: nat) {
    && (exists low: Key :: |low| == 8 && FromBigEndian(low) == lo && forall i :: 0 <= i < 8 ==>
          low[i] == if i < |start| then start[i] else 0)
    && (exists high: Key :: |high| == 8 && FromBigEndian(high) == hi && forall i :: 0 <= i < 8 ==>
          high[i] == if end == [] || i >= |end| then 255 else end[i])
  }

  lemma PadsFill(s: Key, pad: byte)
    ensures |Padded(s, pad)| == 8 && forall i :: 0 <= i < 8 ==> Padded(s, pad)[i] == if i < |s| then s[i] else pad
  {
  }

  lemma AllOnes()
    ensures FromBigEndian([255, 255, 255, 255, 255, 255, 255, 255]) == MAX_UINT64
  {
    Pow256Of8();
    BigEndianRoundTrip(MAX_UINT64, 8);
    ValueOfEight(0xFF, 0xFF);
  }

  lemma EndsSpan(start: Key, end: Key)
    ensures Spans(start, end, Lowest(start), Highest(end))
  {
    PadsFill(start, 0x00);
    PadsFill(end, 0xFF);
    AllOnes();
    var ones: Key := [255, 255, 255, 255, 255, 255, 255, 255];
    assert |ones| == 8 && forall i :: 0 <= i < 8 ==> ones[i] == 255;
  }

  /** The distance of neighbouring boundaries: the width divided by n, at least one. */
  function Spacing(lo: nat, hi: nat, n: nat): nat
    requires lo < hi && n >= 1
  {
    if hi - lo >= n then (hi - lo) / n else 1
  }

  lemma SpacingIsStep(lo: uint64, hi: uint64, n: nat)
    requires lo < hi && n > 1
    ensures StepOf(lo, hi, n) == Spacing(lo, hi, n)
  {
    if hi - lo < n {
      assert (hi - lo) / n == 0;
    } else {
      QuotientPositive(hi - lo, n);
    }
  }

  lemma QuotientPositive(a: nat, n: nat)
    requires 1 <= n <= a
    ensures a / n >= 1
  {
  }

  lemma BucketStart(start: Key, end: Key, n: nat, i: nat)
    requires n >= 1 && 0 < i < |Buckets(start, end, n)|
    ensures StartsAt(Buckets(start, end, n)[i], Lowest(start), Highest(end), n, i)
  {
    SpacingIsStep(Lowest(start), Highest(end), n);
  }

  lemma BucketsTouch(start: Key, end: Key, n: nat)
    ensures var bs := Buckets(start, end, n);
            && bs[0].start == start && bs[|bs| - 1].end == end
            && (forall i, j :: 0 <= i < |bs| && j == i + 1 && j < |bs| ==> bs[i].end == bs[j].start)
  {
    var bs, m := Buckets(start, end, n), Interior(start, end, n);
    assert bs[0].start == BoundaryAt(start, end, n, 0);
    assert bs[m].end == BoundaryAt(start, end, n, m + 1);
  }

  lemma BucketCount(start: Key, end: Key, n: nat)
    requires n >= 1
    ensures var lo, hi := Lowest(start), Highest(end);
            |Buckets(start, end, n)| == if n == 1 || hi <= lo then 1 else if hi - lo >= n then n else hi - lo
  {
  }

  /** n buckets that touch each other, with interior boundaries width / n apart,
      or one for every number in between if there are fewer than n; a range
      without width is left whole. */
  ghost predicate Even(bs: seq<Bucket>, start: Key, end: Key, n: nat, lo: nat, hi: nat) {
    && n >= 1 && bs != [] && bs[0].start == start && bs[|bs| - 1].end == end
    && (forall i, j :: 0 <= i < |bs| && j == i + 1 && j < |bs| ==> bs[i].end == bs[j].start)
    && |bs| == (if n == 1 || hi <= lo then 1 else if hi - lo >= n then n else hi - lo)
    && (forall i :: 0 < i < |bs| ==> StartsAt(bs[i], lo, hi, n, i))
  }

  ghost predicate StartsAt(b: Bucket, lo: nat, hi: nat, n: nat, i: nat)
    requires n >= 1
  {
    lo < hi && b.start == BigEndian(lo + Spacing(lo, hi, n) * i, 8)
  }

  lemma BucketsEven(start: Key, end: Key, n: nat)
    requires n >= 1
    ensures Even(Buckets(start, end, n), start, end, n, Lowest(start), Highest(end))
  {
    BucketsTouch(start, end, n);
    BucketCount(start, end, n);
    var bs, lo, hi := Buckets(start, end, n), Lowest(start), Highest(end);
    forall i | 0 < i < |bs| ensures StartsAt(bs[i], lo, hi, n, i) {
      BucketStart(start, end, n, i);
    }
  }

  /** The buckets divide the numbers between both ends evenly. */
  lemma SplitIsEven(start: Key, end: Key, n: nat, lo: nat, hi: nat)
    requires Spans(start, end, lo, hi) && n >= 1
    ensures Even(Buckets(start, end, n), start, end, n, lo, hi)
  {
    EndsSpan(start, end);
    SpansUnique(start, end, lo, hi, Lowest(start), Highest(end));
    BucketsEven(start, end, n);
  }

  lemma SpansUnique(start: Key, end: Key, lo: nat, hi: nat, l: nat, h: nat)
    requires Spans(start, end, lo, hi) && Spans(start, end, l, h)
    ensures lo == l && hi == h
  {
    var a: Key :| |a| == 8 && FromBigEndian(a) == lo
                  && forall i :: 0 <= i < 8 ==> a[i] == if i < |start| then start[i] else 0;
    var b: Key :| |b| == 8 && FromBigEndian(b) == l
                  && forall i :: 0 <= i < 8 ==> b[i] == if i < |start| then start[i] else 0;
    assert a == b;
    var c: Key :| |c| == 8 && FromBigEndian(c) == hi
                  && forall i :: 0 <= i < 8 ==> c[i] == if end == [] || i >= |end| then 255 else end[i];
    var d: Key :| |d| == 8 && FromBigEndian(d) == h
                  && forall i :: 0 <= i < 8 ==> d[i] == if end == [] || i >= |end| then 255 else end[i];
    assert c == d;
  }
}
