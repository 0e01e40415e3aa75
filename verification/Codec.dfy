/** Fixed-width integers and length-prefixed strings, as they are written to disk and into digests. */
module Codec {
  import opened Keys

  function Pow256(w: nat): (p: nat)
    ensures p > 0
  {
    if w == 0 then 1 else 256 * Pow256(w - 1)
  }

  /** Big-endian encoding of n in w bytes. */
  function BigEndian(n: nat, w: nat): (r: seq<byte>)
    ensures |r| == w
  {
    if w == 0 then [] else BigEndian(n / 256, w - 1) + [n % 256]
  }

  function FromBigEndian(s: seq<byte>): nat {
    if s == [] then 0 else 256 * FromBigEndian(s[..|s| - 1]) + s[|s| - 1]
  }

  lemma {:induction false} BigEndianRoundTrip(n: nat, w: nat)
    requires n < Pow256(w)
    ensures FromBigEndian(BigEndian(n, w)) == n
  {
    if w > 0 {
      BigEndianRoundTrip(n / 256, w - 1);
      var r := BigEndian(n, w);
      assert r[..|r| - 1] == BigEndian(n / 256, w - 1);
    }
  }

  lemma {:induction false} FromBigEndianRoundTrip(s: seq<byte>)
    ensures FromBigEndian(s) < Pow256(|s|)
    ensures BigEndian(FromBigEndian(s), |s|) == s
  {
    if s != [] {
      var h := s[..|s| - 1];
      FromBigEndianRoundTrip(h);
      var n := FromBigEndian(s);
      assert n / 256 == FromBigEndian(h) && n % 256 == s[|s| - 1];
      assert s == h + [s[|s| - 1]];
    }
  }

  lemma {:induction false} LessOfSplit(a: Key, b: Key, x: byte, y: byte)
    requires |a| == |b|
    ensures Less(a + [x], b + [y]) <==> Less(a, b) || (a == b && x < y)
  {
    if a != [] {
      assert (a + [x])[1..] == a[1..] + [x] && (b + [y])[1..] == b[1..] + [y];
      LessOfSplit(a[1..], b[1..], x, y);
      assert a == [a[0]] + a[1..] && b == [b[0]] + b[1..];
    }
  }

  /** Among strings of one length, byte order is numeric order. */
  lemma {:induction false} BigEndianOrder(m: nat, n: nat, w: nat)
    requires m < Pow256(w) && n < Pow256(w)
    ensures Less(BigEndian(m, w), BigEndian(n, w)) <==> m < n
  {
    if w > 0 {
      BigEndianOrder(m / 256, n / 256, w - 1);
      LessOfSplit(BigEndian(m / 256, w - 1), BigEndian(n / 256, w - 1), m % 256, n % 256);
      BigEndianRoundTrip(m / 256, w - 1);
      BigEndianRoundTrip(n / 256, w - 1);
    }
  }

  /** Little-endian encoding of n in w bytes. */
  function LittleEndian(n: nat, w: nat): (r: seq<byte>)
    ensures |r| == w
  {
    if w == 0 then [] else [n % 256] + LittleEndian(n / 256, w - 1)
  }

  function FromLittleEndian(s: seq<byte>): nat {
    if s == [] then 0 else s[0] + 256 * FromLittleEndian(s[1..])
  }

  lemma {:induction false} LittleEndianRoundTrip(n: nat, w: nat)
    requires n < Pow256(w)
    ensures FromLittleEndian(LittleEndian(n, w)) == n
  {
    if w > 0 {
      LittleEndianRoundTrip(n / 256, w - 1);
      assert LittleEndian(n, w)[1..] == LittleEndian(n / 256, w - 1);
    }
  }

  // ---------------------------------------------------------------- length-prefixed strings

  predicate Short(s: Key) {
    |s| <= MAX_UINT64
  }

  lemma Pow256Of8()
    ensures Pow256(8) == MAX_UINT64 + 1
  {
    assert Pow256(2) == 65536;
    assert Pow256(4) == 0x1_0000_0000;
    assert Pow256(6) == 0x1_0000_0000_0000;
  }

  /** Eight big-endian length bytes, then the string. */
  function LengthPrefixed(s: Key): (r: seq<byte>)
    ensures |r| == 8 + |s|
  {
    BigEndian(|s|, 8) + s
  }

  /** Length-prefixed strings can be read back from the front of a stream in only one way. */
  lemma LengthPrefixedInjective(s: Key, t: Key, x: seq<byte>, y: seq<byte>)
    requires Short(s) && Short(t)
    requires LengthPrefixed(s) + x == LengthPrefixed(t) + y
    ensures s == t && x == y
  {
    Pow256Of8();
    var a, b := LengthPrefixed(s) + x, LengthPrefixed(t) + y;
    assert a[..8] == BigEndian(|s|, 8) && b[..8] == BigEndian(|t|, 8);
    BigEndianRoundTrip(|s|, 8);
    BigEndianRoundTrip(|t|, 8);
    assert a[8..8 + |s|] == s && b[8..8 + |t|] == t;
    assert a[8 + |s|..] == x && b[8 + |t|..] == y;
  }

  /** A number written in eight bytes can be read back in only one way. */
  lemma Uint64Injective(m: uint64, n: uint64, x: seq<byte>, y: seq<byte>)
    requires BigEndian(m, 8) + x == BigEndian(n, 8) + y
    ensures m == n && x == y
  {
    Pow256Of8();
    var a, b := BigEndian(m, 8) + x, BigEndian(n, 8) + y;
    assert a[..8] == BigEndian(m, 8) && b[..8] == BigEndian(n, 8);
    BigEndianRoundTrip(m, 8);
    BigEndianRoundTrip(n, 8);
    assert a[8..] == x && b[8..] == y;
  }

  lemma ConcatAssociative<T>(a: seq<T>, b: seq<T>, c: seq<T>)
    ensures (a + b) + c == a + (b + c)
  {
  }
}
