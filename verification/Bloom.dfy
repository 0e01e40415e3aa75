/** Bloom filters over keys and over key prefixes (src/models/bloom_filter): no
    false negatives, through writing and reading back. The digest behind the
    hash functions is a parameter. */
module Bloom {
  import opened Keys
  import opened Codec
  import opened Sequences
  import opened SortedList

  type Digest = seq<byte> -> uint64

  type Seed = seq<byte>

  /** A filter as a value: one byte per cell, one seed per hash function. */
  datatype Filter = Filter(bits: seq<byte>, seeds: seq<Seed>)

  function Cell(digest: Digest, m: nat, seed: Seed, s: Key): nat
    requires m > 0
  {
    digest(s + seed) % m
  }

  /** Every hash function finds its cell set. */
  ghost predicate Covers(digest: Digest, f: Filter, s: Key)
    requires f.bits != []
  {
    forall i :: 0 <= i < |f.seeds| ==> f.bits[Cell(digest, |f.bits|, f.seeds[i], s)] == 1
  }

  /** The cells after the first n hash functions marked theirs. */
  function Marked(digest: Digest, f: Filter, s: Key, n: nat): (bits: seq<byte>)
    requires f.bits != [] && n <= |f.seeds|
    ensures |bits| == |f.bits|
  {
    if n == 0 then f.bits
    else Marked(digest, f, s, n - 1)[Cell(digest, |f.bits|, f.seeds[n - 1], s) := 1]
  }

  function With(digest: Digest, f: Filter, s: Key): (g: Filter)
    requires f.bits != []
    ensures |g.bits| == |f.bits| && g.seeds == f.seeds
  {
    f.(bits := Marked(digest, f, s, |f.seeds|))
  }

  function WithAll(digest: Digest, f: Filter, ss: seq<Key>): (g: Filter)
    requires f.bits != []
    ensures |g.bits| == |f.bits| && g.seeds == f.seeds
    decreases |ss|
  {
    if ss == [] then f else WithAll(digest, With(digest, f, ss[0]), ss[1..])
  }

  /** Marking sets cells and clears none. */
  lemma {:induction false} MarkedSets(digest: Digest, f: Filter, s: Key, n: nat)
    requires f.bits != [] && n <= |f.seeds|
    ensures forall c :: 0 <= c < |f.bits| && f.bits[c] == 1 ==> Marked(digest, f, s, n)[c] == 1
    ensures forall i :: 0 <= i < n ==> Marked(digest, f, s, n)[Cell(digest, |f.bits|, f.seeds[i], s)] == 1
  {
    if n > 0 {
      MarkedSets(digest, f, s, n - 1);
    }
  }

  lemma WithCovers(digest: Digest, f: Filter, s: Key)
    requires f.bits != []
    ensures Covers(digest, With(digest, f, s), s)
    ensures forall t :: Covers(digest, f, t) ==> Covers(digest, With(digest, f, s), t)
  {
    MarkedSets(digest, f, s, |f.seeds|);
  }

  /** No false negatives: whatever was added is found, whatever else was added. */
  lemma {:induction false} NoFalseNegatives(digest: Digest, f: Filter, ss: seq<Key>, s: Key)
    requires f.bits != [] && (s in ss || Covers(digest, f, s))
    ensures Covers(digest, WithAll(digest, f, ss), s)
    decreases |ss|
  {
    if ss != [] {
      WithCovers(digest, f, ss[0]);
      NoFalseNegatives(digest, With(digest, f, ss[0]), ss[1..], s);
    }
  }

  class BloomFilter {
    const digest: Digest
    const seeds: seq<Seed>
    const cells: array<byte>

    ghost function Value(): Filter
      reads cells
    {
      Filter(cells[..], seeds)
    }

    constructor (digest: Digest, m: nat, seeds: seq<Seed>)
      requires m > 0
      ensures this.digest == digest && this.seeds == seeds && fresh(cells) && cells.Length == m
      ensures Value() == Filter(seq(m, _ => 0), seeds)
    {
      this.digest, this.seeds := digest, seeds;
      cells := new byte[m](_ => 0);
    }

    method Add(s: Key)
      requires cells.Length > 0
      modifies cells
      ensures Value() == With(digest, old(Value()), s)
    {
      for i := 0 to |seeds|
        invariant cells[..] == Marked(digest, old(Value()), s, i)
      {
        var index := digest(s + seeds[i]) % cells.Length;
        cells[index] := 1;
      }
    }

    method AddMultiple(ss: seq<Key>)
      requires cells.Length > 0
      modifies cells
      ensures Value() == WithAll(digest, old(Value()), ss)
    {
      assert ss[0..] == ss;
      for i := 0 to |ss|
        invariant WithAll(digest, old(Value()), ss) == WithAll(digest, Value(), ss[i..])
      {
        assert ss[i..][1..] == ss[i + 1..];
        Add(ss[i]);
      }
    }
  }

  method Check(digest: Digest, f: Filter, s: Key) returns (found: bool)
    requires f.bits != []
    ensures found <==> Covers(digest, f, s)
  {
    for i := 0 to |f.seeds|
      invariant forall j :: 0 <= j < i ==> f.bits[Cell(digest, |f.bits|, f.seeds[j], s)] == 1
    {
      if f.bits[digest(s + f.seeds[i]) % |f.bits|] != 1 {
        return false;
      }
    }
    return true;
  }

  // ---------------------------------------------------------------- prefixes

  /** The prefixes of a key with lo to hi bytes. */
  function Prefixes(key: Key, lo: nat, hi: nat): seq<Key>
    decreases hi + 1 - lo
  {
    if lo > hi || lo > |key| then [] else [key[..lo]] + Prefixes(key, lo + 1, hi)
  }

  function AllPrefixes(keys: seq<Key>, lo: nat, hi: nat): seq<Key> {
    if keys == [] then [] else Prefixes(keys[0], lo, hi) + AllPrefixes(keys[1..], lo, hi)
  }

  /** Too short a prefix may always be there; too long a one is cut. */
  ghost predicate MayContain(digest: Digest, f: Filter, lo: nat, hi: nat, prefix: Key)
    requires f.bits != []
  {
    if |prefix| < lo then true
    else if |prefix| > hi then Covers(digest, f, prefix[..hi])
    else Covers(digest, f, prefix)
  }

  method PrefixContains(digest: Digest, f: Filter, lo: nat, hi: nat, prefix: Key) returns (found: bool)
    requires f.bits != []
    ensures found <==> MayContain(digest, f, lo, hi, prefix)
  {
    if |prefix| < lo {
      return true;
    }
    found := Check(digest, f, if |prefix| > hi then prefix[..hi] else prefix);
  }

  method AddPrefixes(filter: BloomFilter, key: Key, lo: nat, hi: nat)
    requires filter.cells.Length > 0
    modifies filter.cells
    ensures filter.Value() == WithAll(filter.digest, old(filter.Value()), Prefixes(key, lo, hi))
  {
    var maxLen := if |key| < hi then |key| else hi;
    var i := lo;
    while i <= maxLen
      invariant WithAll(filter.digest, old(filter.Value()), Prefixes(key, lo, hi))
             == WithAll(filter.digest, filter.Value(), Prefixes(key, i, hi))
    {
      filter.Add(key[..i]);
      i := i + 1;
    }
  }

  method AddAllPrefixes(filter: BloomFilter, keys: seq<Key>, lo: nat, hi: nat)
    requires filter.cells.Length > 0
    modifies filter.cells
    ensures filter.Value() == WithAll(filter.digest, old(filter.Value()), AllPrefixes(keys, lo, hi))
  {
    assert keys[0..] == keys;
    for i := 0 to |keys|
      invariant WithAll(filter.digest, old(filter.Value()), AllPrefixes(keys, lo, hi))
             == WithAll(filter.digest, filter.Value(), AllPrefixes(keys[i..], lo, hi))
    {
      assert keys[i..][1..] == keys[i + 1..];
      WithAllConcat(filter.digest, filter.Value(), Prefixes(keys[i], lo, hi), AllPrefixes(keys[i + 1..], lo, hi));
      AddPrefixes(filter, keys[i], lo, hi);
    }
  }

  lemma {:induction false} WithAllConcat(digest: Digest, f: Filter, a: seq<Key>, b: seq<Key>)
    requires f.bits != []
    ensures WithAll(digest, f, a + b) == WithAll(digest, WithAll(digest, f, a), b)
    decreases |a|
  {
    if a == [] {
      assert a + b == b;
    } else {
      assert (a + b)[1..] == a[1..] + b;
      WithAllConcat(digest, With(digest, f, a[0]), a[1..], b);
    }
  }

  lemma {:induction false} PrefixListed(key: Key, lo: nat, hi: nat, n: nat)
    requires lo <= n <= hi && n <= |key|
    ensures key[..n] in Prefixes(key, lo, hi)
    decreases n - lo
  {
    if lo < n {
      PrefixListed(key, lo + 1, hi, n);
    }
  }

  lemma {:induction false} PrefixAmongAll(keys: seq<Key>, lo: nat, hi: nat, key: Key, p: Key)
    requires key in keys && p in Prefixes(key, lo, hi)
    ensures p in AllPrefixes(keys, lo, hi)
  {
    if keys[0] != key {
      PrefixAmongAll(keys[1..], lo, hi, key, p);
    }
  }

  ghost predicate IsPrefix(p: Key, key: Key) { |p| <= |key| && key[..|p|] == p }

  /** No prefix of an added key is ever ruled out. */
  lemma PrefixComplete(digest: Digest, f: Filter, keys: seq<Key>, lo: nat, hi: nat, key: Key, p: Key)
    requires f.bits != [] && lo <= hi && key in keys && IsPrefix(p, key)
    ensures MayContain(digest, WithAll(digest, f, AllPrefixes(keys, lo, hi)), lo, hi, p)
  {
    if |p| >= lo {
      var n := if |p| > hi then hi else |p|;
      PrefixListed(key, lo, hi, n);
      PrefixAmongAll(keys, lo, hi, key, key[..n]);
      NoFalseNegatives(digest, f, AllPrefixes(keys, lo, hi), key[..n]);
      assert key[..n] == p[..n];
      assert |p| <= hi ==> p[..n] == p;
    }
  }

  /** ... exactly when the configured lengths are the right way round: otherwise
      nothing is added and an empty filter of at least one hash denies a key of lo bytes. */
  lemma PrefixCompleteIff(digest: Digest, m: nat, seeds: seq<Seed>, lo: nat, hi: nat)
    requires m > 0 && seeds != []
    ensures lo <= hi <==>
            (forall keys: seq<Key>, key, p :: key in keys && IsPrefix(p, key) ==>
               MayContain(digest, WithAll(digest, Filter(seq(m, _ => 0), seeds), AllPrefixes(keys, lo, hi)), lo, hi, p))
  {
    var f := Filter(seq(m, _ => 0), seeds);
    if lo <= hi {
      forall keys: seq<Key>, key, p | key in keys && IsPrefix(p, key)
        ensures MayContain(digest, WithAll(digest, f, AllPrefixes(keys, lo, hi)), lo, hi, p)
      {
        PrefixComplete(digest, f, keys, lo, hi, key, p);
      }
    } else {
      var key: Key := seq(lo, _ => 0);
      var keys := [key];
      assert key in keys && IsPrefix(key, key);
      assert keys[1..] == [] && AllPrefixes(keys, lo, hi) == [];
      assert !Covers(digest, f, key[..hi]) by {
        assert f.bits[Cell(digest, m, seeds[0], key[..hi])] == 0;
      }
    }
  }

  // ---------------------------------------------------------------- on disk

  const MAX_INT32: nat := 0x7FFF_FFFF

  /** Counts fit a signed 32-bit number, seeds have four bytes. */
  ghost predicate Storable(f: Filter) {
    |f.bits| <= MAX_INT32 && |f.seeds| <= MAX_INT32 && forall i :: 0 <= i < |f.seeds| ==> |f.seeds[i]| == 4
  }

  function EncodeFilter(f: Filter): seq<byte> {
    BigEndian(|f.seeds|, 4) + (BigEndian(|f.bits|, 4) + (f.bits + Flatten(f.seeds)))
  }

  function TakeSeeds(data: seq<byte>, k: nat): Option<seq<Seed>> {
    if k == 0 then Some([])
    else if |data| < 4 then None
    else
      var rest := TakeSeeds(data[4..], k - 1);
      if rest.None? then None else Some([data[..4]] + rest.value)
  }

  /** Too few bytes, or a negative count, is an error. */
  function DecodeFilter(data: seq<byte>): Option<Filter> {
    if |data| < 8 then None
    else
      var k, m := FromBigEndian(data[..4]), FromBigEndian(data[4..8]);
      if k > MAX_INT32 || m > MAX_INT32 || |data| < 8 + m then None
      else
        var seeds := TakeSeeds(data[8 + m..], k);
        if seeds.None? then None else Some(Filter(data[8..8 + m], seeds.value))
  }

  lemma {:induction false} SeedsBack(seeds: seq<Seed>)
    requires forall i :: 0 <= i < |seeds| ==> |seeds[i]| == 4
    ensures TakeSeeds(Flatten(seeds), |seeds|) == Some(seeds)
  {
    if seeds != [] {
      SeedsBack(seeds[1..]);
      var data := Flatten(seeds);
      assert data[..4] == seeds[0] && data[4..] == Flatten(seeds[1..]);
      assert seeds == [seeds[0]] + seeds[1..];
    }
  }

  lemma FilterRoundTrip(f: Filter)
    requires Storable(f)
    ensures DecodeFilter(EncodeFilter(f)) == Some(f)
  {
    var data := EncodeFilter(f);
    var k, m, tail := BigEndian(|f.seeds|, 4), BigEndian(|f.bits|, 4), Flatten(f.seeds);
    assert data[..4] == k && data[4..8] == m && data[8..] == f.bits + tail;
    assert data[8..8 + |f.bits|] == f.bits && data[8 + |f.bits|..] == tail;
    assert Pow256(4) > MAX_INT32 by {
      assert Pow256(2) == 65536;
    }
    BigEndianRoundTrip(|f.seeds|, 4);
    BigEndianRoundTrip(|f.bits|, 4);
    SeedsBack(f.seeds);
  }

  // ---------------------------------------------------------------- when a filter answers yes

  lemma {:induction false} MarkedExactly(digest: Digest, f: Filter, s: Key, n: nat, c: nat)
    requires f.bits != [] && n <= |f.seeds| && c < |f.bits|
    ensures Marked(digest, f, s, n)[c] == 1 <==>
              f.bits[c] == 1 || exists i :: 0 <= i < n && digest(s + f.seeds[i]) % |f.bits| == c
  {
    if n > 0 {
      MarkedExactly(digest, f, s, n - 1, c);
    }
  }

  /** Some hash function of some added string leads to the cell. */
  ghost predicate Hit(digest: Digest, seeds: seq<Seed>, m: nat, ss: seq<Key>, c: nat)
    requires m > 0
  {
    exists t, i :: t in ss && 0 <= i < |seeds| && digest(t + seeds[i]) % m == c
  }

  lemma HitSplit(digest: Digest, seeds: seq<Seed>, m: nat, ss: seq<Key>, c: nat)
    requires m > 0 && ss != []
    ensures Hit(digest, seeds, m, ss, c) <==>
              || (exists i :: 0 <= i < |seeds| && digest(ss[0] + seeds[i]) % m == c)
              || Hit(digest, seeds, m, ss[1..], c)
  {
    assert forall t :: t in ss <==> t == ss[0] || t in ss[1..];
    if i :| 0 <= i < |seeds| && digest(ss[0] + seeds[i]) % m == c {
      assert ss[0] in ss;
    }
    if Hit(digest, seeds, m, ss[1..], c) {
      var t, i :| t in ss[1..] && 0 <= i < |seeds| && digest(t + seeds[i]) % m == c;
      assert t in ss;
    }
  }

  lemma {:induction false} SetExactly(digest: Digest, f: Filter, ss: seq<Key>, c: nat)
    requires f.bits != [] && c < |f.bits|
    ensures WithAll(digest, f, ss).bits[c] == 1 <==> f.bits[c] == 1 || Hit(digest, f.seeds, |f.bits|, ss, c)
    decreases |ss|
  {
    if ss != [] {
      var g := With(digest, f, ss[0]);
      SetExactly(digest, g, ss[1..], c);
      MarkedExactly(digest, f, ss[0], |f.seeds|, c);
      HitSplit(digest, f.seeds, |f.bits|, ss, c);
    }
  }

  /** A filter that started empty says yes exactly when each cell of the string
      was hit by something added: false positives are collisions, nothing else. */
  lemma AnswersYesIff(digest: Digest, m: nat, seeds: seq<Seed>, ss: seq<Key>, s: Key)
    requires m > 0
    ensures var f := WithAll(digest, Filter(seq(m, _ => 0), seeds), ss);
            Covers(digest, f, s) <==>
              forall i :: 0 <= i < |seeds| ==> Hit(digest, seeds, m, ss, digest(s + seeds[i]) % m)
  {
    var empty := Filter(seq(m, _ => 0), seeds);
    forall i | 0 <= i < |seeds|
      ensures WithAll(digest, empty, ss).bits[digest(s + seeds[i]) % m] == 1 <==>
                Hit(digest, seeds, m, ss, digest(s + seeds[i]) % m)
    {
      SetExactly(digest, empty, ss, digest(s + seeds[i]) % m);
    }
  }

  /** The prefixes of a key from lo to hi bytes, as far as the key goes. */
  lemma {:induction false} PrefixesAre(key: Key, lo: nat, hi: nat, p: Key)
    ensures p in Prefixes(key, lo, hi) <==> p <= key && lo <= |p| <= hi
    decreases hi + 1 - lo
  {
    if lo <= hi && lo <= |key| {
      PrefixesAre(key, lo + 1, hi, p);
      assert p == key[..lo] <==> p <= key && |p| == lo;
    }
  }
}
