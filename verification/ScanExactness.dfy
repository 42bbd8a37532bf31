/** Exactly what a pruned scan needs of a tree's separators. */
module ScanExactness {
  import opened Bytes
  import opened BTree
  import opened BTreeTheory

  ghost predicate TotalOrder(le: (Bytes, Bytes) -> bool) {
    (forall a, b :: le(a, b) || le(b, a)) && forall a, b, c :: le(a, b) && le(b, c) ==> le(a, c)
  }

  /** Keys ascend strictly. */
  ghost predicate StrictKeys(le: (Bytes, Bytes) -> bool, es: seq<Entry>) {
    forall i, j :: 0 <= i < j < |es| ==> le(es[i].key, es[j].key) && !le(es[j].key, es[i].key)
  }

  /** The separators of every node ascend, one per child. */
  ghost predicate SepsAscend(le: (Bytes, Bytes) -> bool, t: Tree) {
    t.Inner? ==> |t.seps| == |t.kids| && Ascending(le, t.seps) && forall i :: 0 <= i < |t.kids| ==> SepsAscend(le, t.kids[i])
  }

  /** Somewhere above `e`, the separator behind its child does not reach up to its key. */
  ghost predicate Misplaced(le: (Bytes, Bytes) -> bool, t: Tree, e: Entry) {
    t.Inner? && |t.seps| == |t.kids| &&
    exists i :: 0 <= i < |t.kids| && e in Flatten(t.kids[i]) &&
      ((i + 1 < |t.kids| && !le(e.key, t.seps[i + 1])) || Misplaced(le, t.kids[i], e))
  }

  /** Comparison against the key `k` itself. */
  function Against(le: (Bytes, Bytes) -> bool, k: Bytes): Cmp {
    key => Ok(if !le(k, key) then Less else if le(key, k) then Equal else Greater)
  }

  lemma AgainstMonotone(le: (Bytes, Bytes) -> bool, k: Bytes)
    requires TotalOrder(le)
    ensures Monotone(Against(le, k), le)
  {
  }

  lemma {:induction false} AgainstComparable(le: (Bytes, Bytes) -> bool, k: Bytes, t: Tree)
    requires SepsAscend(le, t)
    ensures Comparable(Against(le, k), t)
  {
    if t.Inner? {
      forall i | 0 <= i < |t.kids|
        ensures Comparable(Against(le, k), t.kids[i])
      {
        AgainstComparable(le, k, t.kids[i]);
      }
    }
  }

  // ---------- a scan shows entries of the tree only ----------

  lemma {:induction false} ScanWithin(src: Source, node: Node, cmp: Cmp, t: Tree, depth: nat)
    requires depth <= MAX_DEPTH + 1 && Denotes(src, node, t)
    ensures forall e :: e in ScanTrace(src, node, cmp, depth).seen ==> e in Flatten(t)
    decreases t, 1, 0
  {
    if depth <= MAX_DEPTH {
      var lb := LowerBound(node.keys, cmp, 0, |node.keys|);
      if lb.Ok? {
        if t.Leaf? {
          LeafTraceIs(src, node, t.entries, lb.value);
        } else {
          ScanKidsWithin(src, node, cmp, t, depth, if lb.value == 0 then 0 else lb.value - 1);
        }
      }
    }
  }

  lemma {:induction false} ScanKidsWithin(src: Source, node: Node, cmp: Cmp, t: Tree, depth: nat, i: nat)
    requires depth <= MAX_DEPTH && t.Inner? && Denotes(src, node, t) && i <= |t.kids|
    ensures forall e :: e in ScanKids(src, node, cmp, depth, i).seen ==> e in FlattenFrom(t.kids, i)
    ensures forall e :: e in FlattenFrom(t.kids, i) ==> e in Flatten(t)
    decreases t, 0, |t.kids| - i
  {
    FlattenToFrom(t.kids, i);
    if i < |t.kids| {
      ScanWithin(src, Child(src, node, i).value, cmp, t.kids[i], depth + 1);
      ScanKidsWithin(src, node, cmp, t, depth, i + 1);
    }
  }

  // ---------- a misplaced entry is lost ----------

  /** Strict keys put an entry in one child only. */
  lemma OneHome(le: (Bytes, Bytes) -> bool, t: Tree, i: nat, e: Entry)
    requires t.Inner? && StrictKeys(le, Flatten(t)) && i < |t.kids| && e in Flatten(t.kids[i])
    ensures e !in FlattenFrom(t.kids, i + 1)
    ensures forall j :: 0 <= j < i ==> e !in Flatten(t.kids[j])
    ensures StrictKeys(le, Flatten(t.kids[i]))
  {
    KidAt(t.kids, i);
    StrictParts(le, FlattenTo(t.kids, i), Flatten(t.kids[i]), FlattenFrom(t.kids, i + 1), e);
    forall j | 0 <= j < i
      ensures e !in Flatten(t.kids[j])
    {
      InPrefix(t.kids, i, j);
    }
  }

  lemma StrictParts(le: (Bytes, Bytes) -> bool, a: seq<Entry>, b: seq<Entry>, c: seq<Entry>, e: Entry)
    requires StrictKeys(le, a + b + c) && e in b
    ensures e !in a && e !in c && StrictKeys(le, b)
  {
    var s := a + b + c;
    assert forall i :: 0 <= i < |a| ==> s[i] == a[i];
    assert forall i :: 0 <= i < |b| ==> s[|a| + i] == b[i];
    assert forall i :: 0 <= i < |c| ==> s[|a| + |b| + i] == c[i];
  }

  lemma {:induction false} InPrefix(kids: seq<Tree>, i: nat, j: nat)
    requires j < i <= |kids|
    ensures forall e :: e in Flatten(kids[j]) ==> e in FlattenTo(kids, i)
  {
    if j < i - 1 {
      InPrefix(kids, i - 1, j);
    }
  }

  /** A scan for a misplaced entry's own key does not show it. */
  lemma {:induction false} MisplacedIsLost(src: Source, node: Node, le: (Bytes, Bytes) -> bool, t: Tree, e: Entry, depth: nat)
    requires depth <= MAX_DEPTH + 1 && Denotes(src, node, t) && TotalOrder(le)
    requires StrictKeys(le, Flatten(t)) && SepsAscend(le, t) && Misplaced(le, t, e)
    ensures e !in ScanTrace(src, node, Against(le, e.key), depth).seen
    decreases t
  {
    if depth > MAX_DEPTH {
      assert ScanTrace(src, node, Against(le, e.key), depth).seen == [];
      return;
    }
    hide TotalOrder, StrictKeys, Flatten, FlattenFrom, ScanTrace, Against, SepsAscend, Misplaced;
    var i := MisplacedKid(le, t, e);
    if i + 1 < |t.kids| && !le(e.key, t.seps[i + 1]) {
      SkipsPast(src, node, le, t, e, i, depth);
    } else {
      MisplacedIsLost(src, Child(src, node, i).value, le, t.kids[i], e, depth + 1);
      LostBelow(src, node, Against(le, e.key), t, e, i, depth);
    }
  }

  /** The child a misplaced entry lives in, and why it is misplaced. */
  lemma MisplacedKid(le: (Bytes, Bytes) -> bool, t: Tree, e: Entry) returns (i: nat)
    requires StrictKeys(le, Flatten(t)) && SepsAscend(le, t) && Misplaced(le, t, e)
    ensures t.Inner? && i < |t.kids| == |t.seps| && e in Flatten(t.kids[i])
    ensures (i + 1 < |t.kids| && !le(e.key, t.seps[i + 1])) || Misplaced(le, t.kids[i], e)
    ensures e !in FlattenFrom(t.kids, i + 1) && forall j :: 0 <= j < i ==> e !in Flatten(t.kids[j])
    ensures StrictKeys(le, Flatten(t.kids[i])) && SepsAscend(le, t.kids[i])
  {
    hide StrictKeys, Flatten, FlattenFrom;
    i :| i < |t.kids| && e in Flatten(t.kids[i]) &&
         ((i + 1 < |t.kids| && !le(e.key, t.seps[i + 1])) || Misplaced(le, t.kids[i], e));
    OneHome(le, t, i, e);
  }

  /** The separator behind the entry's child is Less, so that child is skipped. */
  lemma SkipsPast(src: Source, node: Node, le: (Bytes, Bytes) -> bool, t: Tree, e: Entry, i: nat, depth: nat)
    requires depth <= MAX_DEPTH && t.Inner? && Denotes(src, node, t) && TotalOrder(le) && SepsAscend(le, t)
    requires i + 1 < |t.kids| && !le(e.key, t.seps[i + 1]) && e !in FlattenFrom(t.kids, i + 1)
    ensures e !in ScanTrace(src, node, Against(le, e.key), depth).seen
  {
    hide Flatten, FlattenFrom;
    var cmp := Against(le, e.key);
    AgainstMonotone(le, e.key);
    SepsRanked(cmp, le, t.seps);
    var lb := FirstNotLess(src, node, cmp, t);
    BoundPasses(src, node, cmp, t, lb, i + 1);
    ScanKidsWithin(src, node, cmp, t, depth, lb - 1);
    TailsShrink(t.kids, i + 1, lb - 1);
  }

  lemma SepsRanked(cmp: Cmp, le: (Bytes, Bytes) -> bool, seps: seq<Bytes>)
    requires Monotone(cmp, le) && Ascending(le, seps) && forall k :: cmp(k).Ok?
    ensures RankedKeys(cmp, seps)
  {
  }

  lemma BoundPasses(src: Source, node: Node, cmp: Cmp, t: Tree, lb: nat, k: nat)
    requires t.Inner? && Denotes(src, node, t) && |t.seps| == |t.kids| && RankedKeys(cmp, t.seps)
    requires LowerBound(node.keys, cmp, 0, |node.keys|) == Ok(lb)
    requires k < |t.seps| && cmp(t.seps[k]) == Ok(Less)
    ensures lb > k
  {
    LowerBoundIs(node.keys, cmp, 0, |t.seps|);
    assert node.keys[k] == Ok(t.seps[k]);
  }

  lemma {:induction false} TailsShrink(kids: seq<Tree>, i: nat, j: nat)
    requires i <= j <= |kids|
    ensures forall e :: e in FlattenFrom(kids, j) ==> e in FlattenFrom(kids, i)
    decreases j - i
  {
    if i < j {
      TailsShrink(kids, i + 1, j);
    }
  }

  /** What the scan of its own child does not show, the scan of the node does not show. */
  lemma LostBelow(src: Source, node: Node, cmp: Cmp, t: Tree, e: Entry, i: nat, depth: nat)
    requires depth <= MAX_DEPTH && t.Inner? && Denotes(src, node, t) && i < |t.kids|
    requires e !in FlattenFrom(t.kids, i + 1) && forall j :: 0 <= j < i ==> e !in Flatten(t.kids[j])
    requires e !in ScanTrace(src, Child(src, node, i).value, cmp, depth + 1).seen
    ensures e !in ScanTrace(src, node, cmp, depth).seen
  {
    var lb := LowerBound(node.keys, cmp, 0, |node.keys|);
    if lb.Ok? {
      LostInKids(src, node, cmp, t, e, i, depth, if lb.value == 0 then 0 else lb.value - 1);
    }
  }

  lemma {:induction false} LostInKids(src: Source, node: Node, cmp: Cmp, t: Tree, e: Entry, i: nat, depth: nat, k: nat)
    requires depth <= MAX_DEPTH && t.Inner? && Denotes(src, node, t) && i < |t.kids| && k <= |t.kids|
    requires e !in FlattenFrom(t.kids, i + 1) && forall j :: 0 <= j < i ==> e !in Flatten(t.kids[j])
    requires e !in ScanTrace(src, Child(src, node, i).value, cmp, depth + 1).seen
    ensures e !in ScanKids(src, node, cmp, depth, k).seen
    decreases |t.kids| - k
  {
    hide Flatten, FlattenFrom, ScanTrace;
    if i < k {
      ScanKidsWithin(src, node, cmp, t, depth, k);
      TailsShrink(t.kids, i + 1, k);
    } else if k < |t.kids| {
      LostInKids(src, node, cmp, t, e, i, depth, k + 1);
      if k < i {
        ScanWithin(src, Child(src, node, k).value, cmp, t.kids[k], depth + 1);
      }
    }
  }

  // ---------- the exact condition ----------

  lemma {:induction false} KeptInDrop(cmp: Cmp, es: seq<Entry>, e: Entry)
    requires e in es && cmp(e.key) != Ok(Less)
    ensures e in DropLess(cmp, es)
  {
    if cmp(es[0].key) == Ok(Less) {
      KeptInDrop(cmp, es[1..], e);
    }
  }

  /** A tree of strict keys and ascending separators that is not `Ordered` has a misplaced entry. */
  lemma {:induction false} UnorderedMisplaces(le: (Bytes, Bytes) -> bool, t: Tree) returns (e: Entry)
    requires StrictKeys(le, Flatten(t)) && SepsAscend(le, t) && !Ordered(le, t)
    ensures e in Flatten(t) && Misplaced(le, t, e)
    decreases t
  {
    if i, x :| 0 <= i < |t.kids| - 1 && x in Flatten(t.kids[i]) && !le(x.key, t.seps[i + 1]) {
      KidAt(t.kids, i);
      e := x;
    } else {
      var i :| 0 <= i < |t.kids| && !Ordered(le, t.kids[i]);
      KidAt(t.kids, i);
      StrictKid(le, t, i);
      e := UnorderedMisplaces(le, t.kids[i]);
    }
  }

  lemma StrictKid(le: (Bytes, Bytes) -> bool, t: Tree, i: nat)
    requires t.Inner? && StrictKeys(le, Flatten(t)) && i < |t.kids|
    ensures StrictKeys(le, Flatten(t.kids[i]))
  {
    KidAt(t.kids, i);
    var a, b := FlattenTo(t.kids, i), Flatten(t.kids[i]);
    assert forall k :: 0 <= k < |b| ==> Flatten(t)[|a| + k] == b[k];
  }

  /** On a tree of strictly ascending keys whose separators ascend, scans find every entry by its key if
      and only if no child's key exceeds the next child's separator. */
  lemma ScansFindAllIffOrdered(src: Source, root: Node, le: (Bytes, Bytes) -> bool, t: Tree)
    requires Levels(t, MAX_DEPTH + 1) && Denotes(src, root, t) && TotalOrder(le)
    requires StrictKeys(le, Flatten(t)) && SepsAscend(le, t)
    ensures Ordered(le, t) <==>
            forall e :: e in Flatten(t) ==> e in ScanTrace(src, root, Against(le, e.key), 0).seen
  {
    hide Denotes, Levels, ScanTrace, WalkTrace;
    if Ordered(le, t) {
      forall e | e in Flatten(t)
        ensures e in ScanTrace(src, root, Against(le, e.key), 0).seen
      {
        AgainstMonotone(le, e.key);
        AgainstComparable(le, e.key, t);
        ScanRefinesFilter(src, root, Against(le, e.key), le, t);
        SelfEqual(le, e.key);
        KeptInDrop(Against(le, e.key), Flatten(t), e);
      }
    } else {
      var e := UnorderedMisplaces(le, t);
      MisplacedIsLost(src, root, le, t, e, 0);
    }
  }

  lemma SelfEqual(le: (Bytes, Bytes) -> bool, k: Bytes)
    requires TotalOrder(le)
    ensures Against(le, k)(k) == Ok(Equal)
  {
  }

  // ---------- separators that only bound their own subtrees ----------

  function LeafOf(key: byte): Node {
    NodeView(true, [Ok([key])], [Ok(Some([]))], [])
  }

  /** Separators 1 and 3 over the leaves of 5 and 7. */
  function LooseRoot(): Node {
    NodeView(false, [Ok([1]), Ok([3])], [Ok(Some(LE(1, 8))), Ok(Some(LE(2, 8)))], [])
  }

  function LooseStore(): Source {
    ref => if ref == 1 then Ok(LeafOf(5)) else if ref == 2 then Ok(LeafOf(7)) else Err(Io)
  }

  function FirstByte(target: nat): Cmp {
    key => Ok(if |key| == 0 || key[0] < target then Less else if key[0] == target then Equal else Greater)
  }

  /** Separators that are lower bounds of their own subtrees do not suffice: the walk of this tree shows 5
      and 7, and the scan for 4 shows 7 alone. */
  lemma LowerBoundsDoNotSuffice()
    ensures WalkTrace(LooseStore(), LooseRoot(), 0) == Trace([Entry([5], Some([])), Entry([7], Some([]))], None)
    ensures ScanTrace(LooseStore(), LooseRoot(), FirstByte(4), 0) == Trace([Entry([7], Some([]))], None)
  {
    hide Field, LE;
    var src, root := LooseStore(), LooseRoot();
    LooseChildren();
    OneLeaf(src, 5);
    OneLeaf(src, 7);
    assert WalkKids(src, root, 0, 2) == Trace([], None);
    assert WalkKids(src, root, 0, 1) == Trace([Entry([7], Some([]))], None);
    assert LowerBound(root.keys, FirstByte(4), 2, 2) == Ok(2);
    assert LowerBound(root.keys, FirstByte(4), 0, 2) == Ok(2);
    assert ScanKids(src, root, FirstByte(4), 0, 2) == Trace([], None);
  }

  lemma LooseChildren()
    ensures Child(LooseStore(), LooseRoot(), 0) == Ok(LeafOf(5)) && Child(LooseStore(), LooseRoot(), 1) == Ok(LeafOf(7))
  {
    hide Field, LE;
    assert LE(1, 8) == [] + LE(1, 8) + [] && LE(2, 8) == [] + LE(2, 8) + [];
    Field8At([], 1, []);
    Field8At([], 2, []);
  }

  lemma OneLeaf(src: Source, key: byte)
    requires key > 4
    ensures WalkTrace(src, LeafOf(key), 1) == Trace([Entry([key], Some([]))], None)
    ensures ScanTrace(src, LeafOf(key), FirstByte(4), 1) == Trace([Entry([key], Some([]))], None)
  {
    var leaf := LeafOf(key);
    assert LeafTrace(leaf, 1) == Trace([], None);
    assert LeafTrace(leaf, 0) == Trace([Entry([key], Some([]))], None);
    assert LowerBound(leaf.keys, FirstByte(4), 0, 0) == Ok(0);
    assert LowerBound(leaf.keys, FirstByte(4), 0, 1) == Ok(0);
  }
}
