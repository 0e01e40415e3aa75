/** B-trees as values: what a node with its subtrees reads in order, and what
    splitting, replacing and descending do to that reading. */
module BTreeSpec {
  import opened Keys
  import opened SortedList
  import opened Weaving

  /** A node's entries and subtrees; a leaf has no subtrees. */
  datatype Tree = Tree(entries: Entries, subs: seq<Tree>)

  predicate Shaped(t: Tree) {
    t.subs == [] || |t.subs| == |t.entries| + 1
  }

  function InOrder(t: Tree): Entries
    decreases t, 1
  {
    if Shaped(t) then Weave(t.entries, Parts(t)) else []
  }

  /** What is read between the entries of a node: in a leaf, nothing. */
  function Parts(t: Tree): (ps: seq<Entries>)
    ensures Shaped(t) ==> |ps| == |t.entries| + 1
    decreases t, 0
  {
    if t.subs == [] then seq(|t.entries| + 1, _ => [])
    else seq(|t.subs|, i requires 0 <= i < |t.subs| => InOrder(t.subs[i]))
  }

  function InsertAt<T>(s: seq<T>, i: nat, x: T): seq<T>
    requires i <= |s|
  {
    s[..i] + [x] + s[i..]
  }

  function Doubled<T>(s: seq<T>, i: nat, x: T, y: T): seq<T>
    requires i < |s|
  {
    s[..i] + [x, y] + s[i + 1..]
  }

  function FirstHalf(t: Tree, order: nat): Tree
    requires 0 < order <= |t.entries| && (t.subs == [] || order <= |t.subs|)
  {
    Tree(t.entries[..order - 1], if t.subs == [] then [] else t.subs[..order])
  }

  function SecondHalf(t: Tree, order: nat): Tree
    requires 0 < order <= |t.entries| && (t.subs == [] || order <= |t.subs|)
  {
    Tree(t.entries[order..], if t.subs == [] then [] else t.subs[order..])
  }

  lemma HalvesParts(t: Tree, order: nat)
    requires Shaped(t) && 0 < order <= |t.entries|
    ensures Parts(FirstHalf(t, order)) == Parts(t)[..order] && Parts(SecondHalf(t, order)) == Parts(t)[order..]
  {
  }

  lemma HalvesRead(t: Tree, order: nat)
    requires Shaped(t) && 0 < order <= |t.entries|
    ensures InOrder(t) == InOrder(FirstHalf(t, order)) + [t.entries[order - 1]] + InOrder(SecondHalf(t, order))
  {
    HalvesParts(t, order);
    AroundEntry(t.entries, Parts(t), order - 1);
  }

  /** The node after its subtree i was split in two. */
  function SplitAt(t: Tree, i: nat, order: nat): Tree
    requires i < |t.subs| == |t.entries| + 1
    requires 0 < order <= |t.subs[i].entries| && (t.subs[i].subs == [] || order <= |t.subs[i].subs|)
  {
    Tree(InsertAt(t.entries, i, t.subs[i].entries[order - 1]),
         Doubled(t.subs, i, FirstHalf(t.subs[i], order), SecondHalf(t.subs[i], order)))
  }

  lemma PartsOf(t: Tree, i: nat)
    requires i < |t.subs|
    ensures Parts(t)[i] == InOrder(t.subs[i])
  {
  }

  lemma DoubledParts(t: Tree, i: nat, l: Tree, r: Tree, es: Entries)
    requires i < |t.subs|
    ensures Parts(Tree(es, Doubled(t.subs, i, l, r))) == Parts(t)[..i] + [InOrder(l), InOrder(r)] + Parts(t)[i + 1..]
  {
  }

  /** Splitting a subtree changes nothing in the reading. */
  lemma SplitReads(t: Tree, i: nat, order: nat)
    requires i < |t.subs| == |t.entries| + 1 && Shaped(t.subs[i]) && 0 < order <= |t.subs[i].entries|
    ensures InOrder(SplitAt(t, i, order)) == InOrder(t)
  {
    var c := t.subs[i];
    var l, r := FirstHalf(c, order), SecondHalf(c, order);
    var e := c.entries[order - 1];
    HalvesRead(c, order);
    PartsOf(t, i);
    SplitPart(t.entries, Parts(t), i, InOrder(l), e, InOrder(r));
    DoubledParts(t, i, l, r, InsertAt(t.entries, i, e));
  }

  function Replaced(t: Tree, i: nat, c: Tree): Tree
    requires i < |t.subs|
  {
    t.(subs := t.subs[i := c])
  }

  lemma ReplacedParts(t: Tree, i: nat, c: Tree)
    requires i < |t.subs| == |t.entries| + 1
    ensures Parts(Replaced(t, i, c)) == Parts(t)[i := InOrder(c)]
  {
  }

  /** Search and update at a key of the node itself. */
  lemma Met(t: Tree, i: nat, v: Key)
    requires Shaped(t) && Sorted(InOrder(t)) && i < |t.entries|
    ensures Find(InOrder(t), t.entries[i].key) == Some(t.entries[i].value)
    ensures var e := Entry(t.entries[i].key, v); InOrder(t.(entries := t.entries[i := e])) == Put(InOrder(t), e)
  {
    MeetFind(t.entries, Parts(t), i);
    MeetPut(t.entries, Parts(t), i, v);
    assert Parts(t.(entries := t.entries[i := Entry(t.entries[i].key, v)])) == Parts(t);
  }

  /** Search and update below slot i. */
  lemma Descend(t: Tree, i: nat, e: Entry, c: Tree)
    requires |t.subs| == |t.entries| + 1 && Sorted(InOrder(t)) && Slot(t.entries, e.key, i)
    ensures Sorted(InOrder(t.subs[i])) && Find(InOrder(t), e.key) == Find(InOrder(t.subs[i]), e.key)
    ensures InOrder(c) == Put(InOrder(t.subs[i]), e) ==> InOrder(Replaced(t, i, c)) == Put(InOrder(t), e)
    ensures InOrder(c) == InOrder(t.subs[i]) ==> InOrder(Replaced(t, i, c)) == InOrder(t)
  {
    SortedPart(t.entries, Parts(t), i);
    DescendFind(t.entries, Parts(t), i, e.key);
    DescendPut(t.entries, Parts(t), i, e);
    ReplacedParts(t, i, c);
    assert Parts(t)[i := Parts(t)[i]] == Parts(t);
  }

  /** A leaf takes a new entry at its slot. */
  lemma LeafSlot(t: Tree, i: nat, e: Entry)
    requires t.subs == [] && Sorted(InOrder(t)) && Slot(t.entries, e.key, i)
    ensures Find(InOrder(t), e.key) == None
    ensures InOrder(t.(entries := InsertAt(t.entries, i, e))) == Put(InOrder(t), e)
  {
    var ps := Parts(t);
    DescendFind(t.entries, ps, i, e.key);
    DescendPut(t.entries, ps, i, e);
    SplitPart(t.entries, ps[i := [e]], i, [], e, []);
    assert ps[i := [e]][..i] + [[], []] + ps[i := [e]][i + 1..] == Parts(t.(entries := InsertAt(t.entries, i, e)));
  }

  /** A key that is not in the tree is not in the root node either. */
  lemma NotMet(t: Tree, i: nat, k: Key)
    requires Shaped(t) && Sorted(InOrder(t)) && i < |t.entries| && Find(InOrder(t), k) == None
    ensures t.entries[i].key != k
  {
    Met(t, i, []);
  }

  /** The slot of a key after subtree i was split around e. */
  lemma SlotAfterSplit(es: Entries, i: nat, e: Entry, k: Key)
    requires Slot(es, k, i) && e.key != k
    ensures Slot(InsertAt(es, i, e), k, if Less(e.key, k) then i + 1 else i)
  {
    LessTotal(e.key, k);
  }
}
