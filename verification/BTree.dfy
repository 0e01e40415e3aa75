/** The memtable's B-tree (src/memtable/btree.go), node objects and all: lookups,
    in-place updates, insertion with splits on the way down, in-order
    collection. Every node object carries the value it stands for. */
module BTree {
  import opened Keys
  import opened SortedList
  import opened Weaving
  import opened BTreeSpec

  function Zip(keys: seq<Key>, values: seq<Key>): (es: Entries)
    requires |keys| == |values|
    ensures |es| == |keys| && forall i :: 0 <= i < |es| ==> es[i] == Entry(keys[i], values[i])
  {
    seq(|keys|, i requires 0 <= i < |keys| => Entry(keys[i], values[i]))
  }

  lemma ZipInsert(keys: seq<Key>, values: seq<Key>, i: nat, k: Key, v: Key)
    requires i <= |keys| == |values|
    ensures Zip(InsertAt(keys, i, k), InsertAt(values, i, v)) == InsertAt(Zip(keys, values), i, Entry(k, v))
  {
  }

  ghost predicate Disjoint(sets: seq<set<Node>>) {
    forall i, j :: 0 <= i < j < |sets| ==> sets[i] !! sets[j]
  }

  /** c has this node set, stands for this tree, lies right below height h, and
      is neither too small nor too big. */
  ghost predicate Suits(c: Node, r: set<Node>, t: Tree, h: nat, order: nat)
    reads c
  {
    c in r && c.repr == r && c.height + 1 == h && c.tree == t && order - 1 <= |c.keys| <= 2 * order - 1
  }

  class Node {
    var keys: seq<Key>
    var values: seq<Key>
    var children: seq<Node>
    var isLeaf: bool

    /** The tree this node stands for, the node objects of that tree and of
        each child's, and the height. */
    ghost var tree: Tree
    ghost var repr: set<Node>
    ghost var reprs: seq<set<Node>>
    ghost var height: nat

    /** The own fields stand for the entries; only inner nodes have children. */
    ghost predicate Stands()
      reads this
    {
      && |values| == |keys| && tree.entries == Zip(keys, values)
      && |tree.subs| == |children| && (isLeaf <==> height == 0)
      && |children| == if isLeaf then 0 else |keys| + 1
    }

    /** The node sets of the children lie apart from each other and from this node. */
    ghost predicate Owns()
      reads this
    {
      && this in repr && |reprs| == |children| && Disjoint(reprs)
      && (forall i :: 0 <= i < |reprs| ==> children[i] in reprs[i] && reprs[i] <= repr && this !in reprs[i])
    }

    /** Child i is what is recorded of it. */
    ghost predicate Fits(order: nat, i: nat)
      requires i < |children| == |tree.subs| == |reprs|
      reads this, children[i]
    {
      Suits(children[i], reprs[i], tree.subs[i], height, order)
    }

    /** Valid children one level lower. */
    ghost predicate Valid(order: nat)
      reads this, repr
      decreases height
    {
      && Stands() && Owns()
      && (forall i :: 0 <= i < |children| ==> children[i] in repr && Fits(order, i) && children[i].Valid(order))
    }

    /** An empty leaf. */
    constructor ()
      ensures isLeaf && keys == [] && tree == Tree([], []) && repr == {this} && height == 0
      ensures forall order :: Valid(order)
    {
      keys, values, children, isLeaf := [], [], [], true;
      tree, repr, reprs, height := Tree([], []), {this}, [], 0;
    }

    /** A new root above an old one. */
    constructor Above(child: Node, ghost order: nat)
      requires child.Valid(order) && order - 1 <= |child.keys| <= 2 * order - 1
      ensures Valid(order) && !isLeaf && keys == [] && children == [child] && fresh(this)
      ensures tree == Tree([], [child.tree]) && repr == {this} + child.repr
    {
      keys, values, children, isLeaf := [], [], [child], false;
      tree, repr, reprs, height := Tree([], [child.tree]), {this} + child.repr, [child.repr], child.height + 1;
      new;
    }

    /** Where the scan over the keys stops: at the key, or at its slot. */
    method Scan(key: Key) returns (i: nat)
      requires |values| == |keys|
      ensures i <= |keys|
      ensures (i < |keys| && keys[i] == key) || Slot(Zip(keys, values), key, i)
    {
      i := 0;
      while i < |keys| && Less(keys[i], key)
        invariant i <= |keys| && (i > 0 ==> Less(keys[i - 1], key))
      {
        i := i + 1;
      }
      if i < |keys| {
        LessTotal(keys[i], key);
      }
    }

    /** Lookup, tombstones included. */
    method Lookup(key: Key, ghost order: nat) returns (r: Option<Key>)
      requires Valid(order) && Sorted(InOrder(tree))
      ensures r == Find(InOrder(tree), key)
      decreases height
    {
      var i := Scan(key);
      if i < |keys| && keys[i] == key {
        Met(tree, i, values[i]);
        return Some(values[i]);
      }
      if isLeaf {
        LeafSlot(tree, i, Entry(key, []));
        return None;
      }
      Descend(tree, i, Entry(key, []), tree.subs[i]);
      r := children[i].Lookup(key, order);
    }

    // ------------------------------------------------------------ updating in place

    /** Give entry i another value. */
    method SetValue(i: nat, value: Key, ghost order: nat)
      requires Valid(order) && i < |keys|
      modifies this`values, this`tree
      ensures Valid(order) && tree == old(tree).(entries := old(tree).entries[i := Entry(keys[i], value)])
    {
      values := values[i := value];
      tree := tree.(entries := tree.entries[i := Entry(keys[i], value)]);
      assert tree.entries == Zip(keys, values);
    }

    /** Take in what child i has become. */
    ghost method Reseat(order: nat, i: nat)
      requires Stands() && Owns() && i < |children|
      requires forall j :: 0 <= j < |children| && j != i ==> Fits(order, j) && children[j].Valid(order)
      requires var c := children[i];
               && c in c.repr && c.repr !! repr - reprs[i] && c.height + 1 == height
               && order - 1 <= |c.keys| <= 2 * order - 1 && c.Valid(order)
      modifies this`repr, this`reprs, this`tree
      ensures Valid(order)
      ensures repr == old(repr) + children[i].repr && tree == Replaced(old(tree), i, children[i].tree)
    {
      repr := repr + children[i].repr;
      reprs := reprs[i := children[i].repr];
      tree := Replaced(tree, i, children[i].tree);
    }

    /** The update, in child i. */
    method UpdateChild(i: nat, key: Key, value: Key, ghost order: nat)
      requires Valid(order) && !isLeaf && i < |children| && Sorted(InOrder(tree.subs[i]))
      modifies repr
      ensures Valid(order) && repr == old(repr) && height == old(height) && keys == old(keys)
              && children == old(children)
      ensures tree == Replaced(old(tree), i, children[i].tree)
      ensures InOrder(children[i].tree) == Updated(InOrder(old(tree).subs[i]), Entry(key, value))
      decreases height, 0
    {
      children[i].UpdateExisting(key, value, order);
      forall j | 0 <= j < |children| && j != i ensures Fits(order, j) && children[j].Valid(order) {
        assert old(Fits(order, j)) && reprs[j] !! reprs[i];
      }
      Reseat(order, i);
    }

    /** Overwrite the value of a key that is there; otherwise change nothing. */
    method UpdateExisting(key: Key, value: Key, ghost order: nat)
      requires Valid(order) && Sorted(InOrder(tree))
      modifies repr
      ensures Valid(order) && repr == old(repr) && height == old(height) && keys == old(keys)
      ensures InOrder(tree) == Updated(InOrder(old(tree)), Entry(key, value))
      decreases height, 1
    {
      var i := Scan(key);
      if i < |keys| && keys[i] == key {
        Met(tree, i, value);
        SetValue(i, value, order);
      } else if isLeaf {
        LeafSlot(tree, i, Entry(key, value));
      } else {
        Descend(tree, i, Entry(key, value), tree.subs[i]);
        UpdateChild(i, key, value, order);
        Descend(old(tree), i, Entry(key, value), children[i].tree);
      }
    }

    // ------------------------------------------------------------ splitting

    /** A node over the entries of another from n on, and the children behind them. */
    constructor Tail(full: Node, n: nat, ghost order: nat)
      requires full.Valid(order) && 0 < n <= |full.keys|
      ensures Valid(order) && fresh(this) && height == full.height && repr == {this} + Union(reprs)
      ensures |keys| == |full.keys| - n && tree == SecondHalf(full.tree, n)
      ensures reprs == full.reprs[if full.isLeaf then 0 else n..]
    {
      isLeaf, height := full.isLeaf, full.height;
      keys, values := full.keys[n..], full.values[n..];
      tree := SecondHalf(full.tree, n);
      children := if full.isLeaf then [] else full.children[n..];
      reprs := if full.isLeaf then [] else full.reprs[n..];
      new;
      repr := {this} + Union(reprs);
      assert tree.entries == Zip(keys, values);
      forall i | 0 <= i < |children| ensures children[i] in reprs[i] && Fits(order, i) && children[i].Valid(order) {
        assert full.Fits(order, n + i);
      }
    }

    /** Forget the entries from n - 1 on, and the children behind them. */
    method Truncate(n: nat, ghost order: nat)
      requires Valid(order) && 0 < n <= |keys|
      modifies this
      ensures Valid(order) && height == old(height) && repr == {this} + Union(reprs)
      ensures |keys| == n - 1 && tree == FirstHalf(old(tree), n)
      ensures isLeaf == old(isLeaf) && reprs == old(reprs)[..if isLeaf then 0 else n]
    {
      keys, values := keys[..n - 1], values[..n - 1];
      tree := FirstHalf(tree, n);
      if !isLeaf {
        children, reprs := children[..n], reprs[..n];
      }
      repr := {this} + Union(reprs);
      assert tree.entries == Zip(keys, values);
      forall i | 0 <= i < |children| ensures children[i] in reprs[i] && Fits(order, i) && children[i].Valid(order) {
        assert old(Fits(order, i)) && children[i] == old(children[i]) && reprs[i] == old(reprs[i]);
        assert this !in reprs[i];
      }
    }

    /** Keep the first order - 1 entries, hand out the middle one, and move the
        rest, with the children behind it, to a new sibling. */
    method Halve(order: nat) returns (sibling: Node, key: Key, value: Key)
      requires Valid(order) && order >= 2 && |keys| == 2 * order - 1
      modifies this
      ensures Valid(order) && sibling.Valid(order) && height == sibling.height == old(height)
      ensures |keys| == |sibling.keys| == order - 1
      ensures tree == FirstHalf(old(tree), order) && sibling.tree == SecondHalf(old(tree), order)
      ensures Entry(key, value) == old(tree).entries[order - 1]
      ensures this in repr && sibling in sibling.repr && repr !! sibling.repr && fresh(sibling)
      ensures repr <= old(repr) && sibling.repr <= old(repr) - {this} + {sibling}
    {
      key, value := keys[order - 1], values[order - 1];
      sibling := new Node.Tail(this, order, order);
      Truncate(order, order);
      UnionSplit(old(reprs), if isLeaf then 0 else order, old(repr), this);
      Apart(repr, sibling.repr, Union(reprs), Union(sibling.reprs), this, sibling, old(repr));
    }

    /** Child i and the new sibling are the two halves of what child i was. */
    ghost predicate Halved(i: nat, sibling: Node, e: Entry, order: nat)
      requires i < |children| == |tree.subs| == |reprs|
      reads this, children, sibling
    {
      var full, was := children[i], tree.subs[i];
      && full in full.repr && sibling in sibling.repr && full.repr !! sibling.repr && sibling !in repr
      && full.repr <= reprs[i] && sibling.repr <= reprs[i] + {sibling}
      && full.height + 1 == sibling.height + 1 == height && |full.keys| == |sibling.keys| == order - 1
      && 0 < order <= |was.entries| && Shaped(was) && e == was.entries[order - 1]
      && full.tree == FirstHalf(was, order) && sibling.tree == SecondHalf(was, order)
    }

    lemma HalvesSuit(i: nat, sibling: Node, e: Entry, order: nat, j: nat)
      requires Stands() && Owns() && i < |children| && order >= 2 && j <= |children|
      requires forall k :: 0 <= k < |children| && k != i ==> Fits(order, k) && children[k].Valid(order)
      requires Halved(i, sibling, e, order) && children[i].Valid(order) && sibling.Valid(order)
      ensures var full := children[i];
              var c, r := Doubled(children, i, full, sibling)[j], Doubled(reprs, i, full.repr, sibling.repr)[j];
              && Suits(c, r, Doubled(tree.subs, i, full.tree, sibling.tree)[j], height, order) && c.Valid(order)
              && r <= repr + {sibling} && this !in r
    {
      if j < i {
        assert Fits(order, j);
      } else if j > i + 1 {
        assert Fits(order, j - 1);
      }
    }

    /** Put the sibling beside child i and the middle entry between them. */
    method Adopt(i: nat, sibling: Node, key: Key, value: Key, ghost order: nat)
      requires Stands() && Owns() && !isLeaf && i < |children| && order >= 2
      requires forall j :: 0 <= j < |children| && j != i ==> Fits(order, j) && children[j].Valid(order)
      requires Halved(i, sibling, Entry(key, value), order) && children[i].Valid(order) && sibling.Valid(order)
      modifies this
      ensures Valid(order) && height == old(height) && repr == old(repr) + {sibling} && !isLeaf
      ensures tree == SplitAt(old(tree), i, order) && children == Doubled(old(children), i, old(children)[i], sibling)
    {
      var full := children[i];
      var cs := Doubled(children, i, full, sibling);
      ghost var rs, t := Doubled(reprs, i, full.repr, sibling.repr), SplitAt(tree, i, order);
      DisjointSplit(reprs, i, full.repr, sibling.repr, repr, this);
      ZipInsert(keys, values, i, key, value);
      forall j | 0 <= j < |cs|
        ensures Suits(cs[j], rs[j], t.subs[j], height, order) && cs[j].Valid(order) && rs[j] <= repr + {sibling}
                && this !in rs[j]
      {
        HalvesSuit(i, sibling, Entry(key, value), order, j);
      }
      keys, values, children := InsertAt(keys, i, key), InsertAt(values, i, value), cs;
      reprs, repr, tree := rs, repr + {sibling}, t;
    }

    /** Split the full child i; the middle entry moves up between the halves. */
    method SplitChild(i: nat, order: nat)
      requires Valid(order) && order >= 2 && !isLeaf && i < |children| && |children[i].keys| == 2 * order - 1
      modifies this, children[i]
      ensures Valid(order) && height == old(height) && fresh(repr - old(repr)) && !isLeaf
      ensures Shaped(old(tree).subs[i]) && order <= |old(tree).subs[i].entries| && tree == SplitAt(old(tree), i, order)
      ensures |children| == |old(children)| + 1 && |children[i].keys| == |children[i + 1].keys| == order - 1
    {
      var full := children[i];
      assert Fits(order, i);
      var sibling, key, value := full.Halve(order);
      forall j | 0 <= j < |children| && j != i ensures Fits(order, j) && children[j].Valid(order) {
        assert old(Fits(order, j)) && reprs[j] !! reprs[i];
      }
      Adopt(i, sibling, key, value, order);
    }

    // ------------------------------------------------------------ inserting

    /** The scan from the right, for a key that is not here. */
    method ScanDown(key: Key) returns (i: nat)
      requires |values| == |keys| && key !in keys
      ensures Slot(Zip(keys, values), key, i)
    {
      var k := |keys| - 1;
      while k >= 0 && Less(key, keys[k])
        invariant -1 <= k < |keys| && (k + 1 < |keys| ==> Less(key, keys[k + 1]))
      {
        k := k - 1;
      }
      if k >= 0 {
        LessTotal(key, keys[k]);
      }
      i := k + 1;
    }

    /** A leaf makes room and takes the entry. */
    method InsertLeaf(key: Key, value: Key, ghost order: nat) returns (ghost p: nat)
      requires Valid(order) && isLeaf && key !in keys
      modifies this
      ensures Valid(order) && repr == old(repr) && height == old(height) && |keys| == |old(keys)| + 1
      ensures Slot(old(tree).entries, key, p)
      ensures tree == old(tree).(entries := InsertAt(old(tree).entries, p, Entry(key, value)))
    {
      var at;
      keys, values, at := ShiftIn(keys, values, key, value);
      p := at;
      ZipInsert(old(keys), old(values), p, key, value);
      tree := tree.(entries := InsertAt(tree.entries, p, Entry(key, value)));
    }

    /** Make sure the child the key belongs to has room, splitting it if need be. */
    method MakeRoom(key: Key, order: nat) returns (i: nat)
      requires Valid(order) && order >= 2 && !isLeaf && |keys| < 2 * order - 1
      requires Sorted(InOrder(tree)) && Find(InOrder(tree), key) == None
      modifies repr
      ensures Valid(order) && height == old(height) && fresh(repr - old(repr)) && !isLeaf
      ensures |old(keys)| <= |keys| <= |old(keys)| + 1
      ensures InOrder(tree) == InOrder(old(tree)) && Slot(tree.entries, key, i)
      ensures i < |children| && |children[i].keys| < 2 * order - 1
    {
      AbsentKey(tree, keys, values, key);
      i := ScanDown(key);
      assert Fits(order, i);
      if |children[i].keys| == 2 * order - 1 {
        SplitChild(i, order);
        SplitReads(old(tree), i, order);
        NotMet(tree, i, key);
        SlotAfterSplit(old(tree).entries, i, tree.entries[i], key);
        if Less(keys[i], key) {
          i := i + 1;
        }
      }
    }

    /** The insertion, in child i. */
    method InsertChild(i: nat, key: Key, value: Key, order: nat)
      requires Valid(order) && order >= 2 && !isLeaf && i < |children| && |children[i].keys| < 2 * order - 1
      requires Sorted(InOrder(tree.subs[i])) && Find(InOrder(tree.subs[i]), key) == None
      modifies repr
      ensures Valid(order) && fresh(repr - old(repr)) && height == old(height) && keys == old(keys)
              && children == old(children)
      ensures tree == Replaced(old(tree), i, children[i].tree)
      ensures InOrder(children[i].tree) == Put(InOrder(old(tree).subs[i]), Entry(key, value))
      decreases height, 0
    {
      assert Fits(order, i);
      children[i].InsertNonFull(key, value, order);
      forall j | 0 <= j < |children| && j != i ensures Fits(order, j) && children[j].Valid(order) {
        assert old(Fits(order, j)) && reprs[j] !! reprs[i];
      }
      Reseat(order, i);
    }

    /** Insert a key that is not there below a node that is not full. */
    method InsertNonFull(key: Key, value: Key, order: nat)
      requires Valid(order) && order >= 2 && |keys| < 2 * order - 1
      requires Sorted(InOrder(tree)) && Find(InOrder(tree), key) == None
      modifies repr
      ensures Valid(order) && height == old(height) && fresh(repr - old(repr))
      ensures |old(keys)| <= |keys| <= |old(keys)| + 1
      ensures InOrder(tree) == Put(InOrder(old(tree)), Entry(key, value))
      decreases height, 1
    {
      ghost var e := Entry(key, value);
      if isLeaf {
        AbsentKey(tree, keys, values, key);
        ghost var p := InsertLeaf(key, value, order);
        LeafSlot(old(tree), p, e);
      } else {
        var i := MakeRoom(key, order);
        ghost var t := tree;
        Descend(t, i, e, t.subs[i]);
        InsertChild(i, key, value, order);
        Descend(t, i, e, children[i].tree);
      }
    }

    // ------------------------------------------------------------ reading in order

    /** What lies between the entries i - 1 and i. */
    method CollectPart(i: nat, before: Entries, ghost order: nat) returns (pairs: Entries)
      requires Valid(order) && i <= |keys|
      ensures pairs == before + Parts(tree)[i]
      decreases height, 0
    {
      pairs := before;
      if !isLeaf {
        pairs := children[i].Collect(pairs, order);
      }
    }

    /** Append everything below this node to what was collected before. */
    method Collect(before: Entries, ghost order: nat) returns (pairs: Entries)
      requires Valid(order)
      ensures pairs == before + InOrder(tree)
      decreases height, 1
    {
      pairs := before;
      ghost var es, ps := tree.entries, Parts(tree);
      for i := 0 to |keys|
        invariant pairs == before + Left(es, ps, i)
      {
        LeftStep(es, ps, i);
        pairs := CollectPart(i, pairs, order);
        pairs := pairs + [Entry(keys[i], values[i])];
      }
      AroundPart(es, ps, |es|);
      pairs := CollectPart(|keys|, pairs, order);
    }
  }

  lemma AbsentKey(t: Tree, keys: seq<Key>, values: seq<Key>, key: Key)
    requires |keys| == |values| && t.entries == Zip(keys, values) && Shaped(t)
    requires Sorted(InOrder(t)) && Find(InOrder(t), key) == None
    ensures key !in keys
  {
    forall i | 0 <= i < |keys| ensures keys[i] != key {
      NotMet(t, i, key);
    }
  }

  /** Move everything greater than the key one place to the right. */
  method ShiftIn(keys: seq<Key>, values: seq<Key>, key: Key, value: Key) returns (ks: seq<Key>, vs: seq<Key>, p: nat)
    requires |keys| == |values| && key !in keys
    ensures Slot(Zip(keys, values), key, p) && ks == InsertAt(keys, p, key) && vs == InsertAt(values, p, value)
  {
    var i := |keys| - 1;
    ks, vs := keys + [[]], values + [[]];
    while i >= 0 && Less(key, ks[i])
      invariant -1 <= i < |keys| && |ks| == |vs| == |keys| + 1
      invariant forall j :: 0 <= j <= i ==> ks[j] == keys[j] && vs[j] == values[j]
      invariant forall j :: i + 2 <= j < |ks| ==> ks[j] == keys[j - 1] && vs[j] == values[j - 1]
      invariant i + 1 < |keys| ==> Less(key, keys[i + 1])
    {
      ks, vs := ks[i + 1 := ks[i]], vs[i + 1 := vs[i]];
      i := i - 1;
    }
    if i >= 0 {
      LessTotal(key, keys[i]);
    }
    p := i + 1;
    ks, vs := ks[p := key], vs[p := value];
    ShiftedIn(keys, ks, p);
    ShiftedIn(values, vs, p);
  }

  lemma ShiftedIn<T>(s: seq<T>, r: seq<T>, p: nat)
    requires p < |r| == |s| + 1 && (forall j :: 0 <= j < p ==> r[j] == s[j])
    requires forall j :: p < j < |r| ==> r[j] == s[j - 1]
    ensures r == InsertAt(s, p, r[p])
  {
  }

  ghost function Union(sets: seq<set<Node>>): set<Node> {
    set i, n | 0 <= i < |sets| && n in sets[i] :: n
  }

  /** The two halves of disjoint sets do not meet, and stay within the whole. */
  lemma UnionSplit(sets: seq<set<Node>>, n: nat, whole: set<Node>, x: Node)
    requires Disjoint(sets) && n <= |sets| && forall i :: 0 <= i < |sets| ==> sets[i] <= whole && x !in sets[i]
    ensures Union(sets[..n]) !! Union(sets[n..])
    ensures Union(sets[..n]) <= whole - {x} && Union(sets[n..]) <= whole - {x}
  {
    var a, b := sets[..n], sets[n..];
    forall i, j, m | 0 <= i < |a| && 0 <= j < |b| && m in a[i] ensures m !in b[j] {
      assert sets[i] !! sets[n + j];
    }
  }

  lemma Apart(r: set<Node>, s: set<Node>, u: set<Node>, v: set<Node>, x: Node, y: Node, whole: set<Node>)
    requires r == {x} + u && s == {y} + v && u !! v && u <= whole - {x} && v <= whole - {x}
    requires x in whole && y !in whole
    ensures r !! s && r <= whole && s <= whole - {x} + {y}
  {
  }

  /** Splitting one of disjoint sets, with something new in one half. */
  lemma DisjointSplit(sets: seq<set<Node>>, i: nat, a: set<Node>, b: set<Node>, whole: set<Node>, x: Node)
    requires Disjoint(sets) && i < |sets| && forall j :: 0 <= j < |sets| ==> sets[j] <= whole && x !in sets[j]
    requires a !! b && a <= sets[i] && b * whole <= sets[i]
    ensures Disjoint(Doubled(sets, i, a, b))
  {
    var r := Doubled(sets, i, a, b);
    forall j, k | 0 <= j < k < |r| ensures r[j] !! r[k] {
      var oj, ok := if j <= i then j else j - 1, if k <= i then k else k - 1;
      if oj != ok {
        assert sets[oj] !! sets[ok];
      }
    }
  }

  function Updated(s: Entries, e: Entry): Entries {
    if Find(s, e.key).Some? then Put(s, e) else s
  }
}
