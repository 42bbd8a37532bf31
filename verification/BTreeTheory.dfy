/** What the traversals of `btree.rs` mean on a tree, and what they guarantee on any node store. */
module BTreeTheory {
  import opened Bytes
  import opened BTree

  /** A tree as its nodes describe it: entries in the leaves, one separator key per child. */
  datatype Tree = Leaf(entries: seq<Entry>) | Inner(seps: seq<Bytes>, kids: seq<Tree>)

  function Flatten(t: Tree): seq<Entry> {
    match t
    case Leaf(es) => es
    case Inner(_, kids) => FlattenFrom(kids, 0)
  }

  function FlattenFrom(kids: seq<Tree>, i: nat): seq<Entry>
    requires i <= |kids|
    decreases kids, |kids| - i
  {
    if i == |kids| then [] else Flatten(kids[i]) + FlattenFrom(kids, i + 1)
  }

  function FlattenTo(kids: seq<Tree>, i: nat): seq<Entry>
    requires i <= |kids|
  {
    if i == 0 then [] else FlattenTo(kids, i - 1) + Flatten(kids[i - 1])
  }

  ghost predicate Levels(t: Tree, n: nat) {
    n > 0 && (t.Inner? ==> forall i :: 0 <= i < |t.kids| ==> Levels(t.kids[i], n - 1))
  }

  /** The node and everything below it, as loaded through `src`, spell out `t`. */
  ghost predicate Denotes(src: Source, node: Node, t: Tree)
    decreases t
  {
    match t
    case Leaf(es) =>
      node.leaf && |node.keys| == |es| &&
      forall i :: 0 <= i < |es| ==> node.keys[i] == Ok(es[i].key) && node.vals[i] == Ok(es[i].val)
    case Inner(seps, kids) =>
      !node.leaf && |node.keys| == |seps| == |kids| &&
      (forall i :: 0 <= i < |seps| ==> node.keys[i] == Ok(seps[i])) &&
      forall i :: 0 <= i < |kids| ==> Child(src, node, i).Ok? && Denotes(src, Child(src, node, i).value, kids[i])
  }

  // ---------- order ----------

  function Rank(cmp: Cmp, key: Bytes): nat {
    match cmp(key)
    case Ok(Less) => 0
    case Ok(Equal) => 1
    case Ok(Greater) => 2
    case Err(_) => 3
  }

  ghost predicate Ascending(le: (Bytes, Bytes) -> bool, keys: seq<Bytes>) {
    forall i, j :: 0 <= i < j < |keys| ==> le(keys[i], keys[j])
  }

  ghost predicate SortedEntries(le: (Bytes, Bytes) -> bool, es: seq<Entry>) {
    forall i, j :: 0 <= i < j < |es| ==> le(es[i].key, es[j].key)
  }

  /** Keys ascend, separators ascend, and no key of a child exceeds the next child's separator.
      Nothing is asked of a separator and its own subtree. */
  ghost predicate Ordered(le: (Bytes, Bytes) -> bool, t: Tree) {
    SortedEntries(le, Flatten(t)) &&
    (t.Inner? ==>
       && |t.seps| == |t.kids|
       && Ascending(le, t.seps)
       && (forall i, e :: 0 <= i < |t.kids| - 1 && e in Flatten(t.kids[i]) ==> le(e.key, t.seps[i + 1]))
       && forall i :: 0 <= i < |t.kids| ==> Ordered(le, t.kids[i]))
  }

  /** A comparator that respects the order: Less, then Equal, then Greater. */
  ghost predicate Monotone(cmp: Cmp, le: (Bytes, Bytes) -> bool) {
    forall a, b :: le(a, b) && cmp(a).Ok? && cmp(b).Ok? ==> Rank(cmp, a) <= Rank(cmp, b)
  }

  /** The comparator succeeds on every key and separator of the tree. */
  ghost predicate Comparable(cmp: Cmp, t: Tree) {
    match t
    case Leaf(es) => forall e :: e in es ==> cmp(e.key).Ok?
    case Inner(seps, kids) =>
      (forall k :: k in seps ==> cmp(k).Ok?) &&
      forall i :: 0 <= i < |kids| ==> Comparable(cmp, kids[i])
  }

  // ---------- flattening ----------

  lemma {:induction false} FlattenToFrom(kids: seq<Tree>, i: nat)
    requires i <= |kids|
    ensures FlattenTo(kids, i) + FlattenFrom(kids, i) == FlattenFrom(kids, 0)
  {
    if i > 0 {
      FlattenToFrom(kids, i - 1);
      assert FlattenFrom(kids, i - 1) == Flatten(kids[i - 1]) + FlattenFrom(kids, i);
    }
  }

  lemma {:induction false} ComparableFlat(cmp: Cmp, t: Tree)
    requires Comparable(cmp, t)
    ensures forall e :: e in Flatten(t) ==> cmp(e.key).Ok?
    decreases t
  {
    if t.Inner? {
      ComparableFlatFrom(cmp, t.kids, 0);
    }
  }

  lemma {:induction false} ComparableFlatFrom(cmp: Cmp, kids: seq<Tree>, i: nat)
    requires i <= |kids|
    requires forall j :: 0 <= j < |kids| ==> Comparable(cmp, kids[j])
    ensures forall e :: e in FlattenFrom(kids, i) ==> cmp(e.key).Ok?
    decreases kids, |kids| - i
  {
    if i < |kids| {
      ComparableFlat(cmp, kids[i]);
      ComparableFlatFrom(cmp, kids, i + 1);
    }
  }

  // ---------- the pruned scan refines a filter ----------

  /** What is left of `es` after dropping the leading entries below the target. */
  function DropLess(cmp: Cmp, es: seq<Entry>): seq<Entry> {
    if |es| > 0 && cmp(es[0].key) == Ok(Less) then DropLess(cmp, es[1..]) else es
  }

  ghost predicate Ranked(cmp: Cmp, es: seq<Entry>) {
    (forall e :: e in es ==> cmp(e.key).Ok?) &&
    forall i, j :: 0 <= i < j < |es| ==> Rank(cmp, es[i].key) <= Rank(cmp, es[j].key)
  }

  /** `DropLess` is a suffix, and on ranked entries it is exactly the entries not below the target. */
  lemma {:induction false} DropLessAt(cmp: Cmp, es: seq<Entry>, n: nat)
    requires n <= |es|
    requires forall i :: 0 <= i < n ==> cmp(es[i].key) == Ok(Less)
    requires n < |es| ==> cmp(es[n].key) != Ok(Less)
    ensures DropLess(cmp, es) == es[n..]
  {
    if n > 0 {
      DropLessAt(cmp, es[1..], n - 1);
      assert es[1..][n - 1..] == es[n..];
    }
  }

  lemma {:induction false} DropLessAppend(cmp: Cmp, a: seq<Entry>, b: seq<Entry>)
    requires Ranked(cmp, a + b)
    ensures DropLess(cmp, a + b) == DropLess(cmp, a) + DropLess(cmp, b)
  {
    if |a| == 0 {
      assert a + b == b;
    } else if cmp(a[0].key) == Ok(Less) {
      assert (a + b)[1..] == a[1..] + b;
      assert Ranked(cmp, a[1..] + b) by {
        assert forall i :: 0 <= i < |a[1..] + b| ==> (a[1..] + b)[i] == (a + b)[i + 1];
      }
      DropLessAppend(cmp, a[1..], b);
    } else if |b| > 0 {
      assert (a + b)[|a|] == b[0] && (a + b)[0] == a[0];
    }
  }

  lemma {:induction false} LowerBoundIs(keys: seq<Result<Bytes>>, cmp: Cmp, lo: nat, hi: nat)
    requires lo <= hi <= |keys|
    requires forall i :: 0 <= i < |keys| ==> keys[i].Ok? && cmp(keys[i].value).Ok?
    requires forall i, j :: 0 <= i < j < |keys| ==> Rank(cmp, keys[i].value) <= Rank(cmp, keys[j].value)
    requires forall i :: 0 <= i < lo ==> cmp(keys[i].value) == Ok(Less)
    requires forall i :: hi <= i < |keys| ==> cmp(keys[i].value) != Ok(Less)
    ensures LowerBound(keys, cmp, lo, hi).Ok?
    ensures var lb := LowerBound(keys, cmp, lo, hi).value;
            (forall i :: 0 <= i < lb ==> cmp(keys[i].value) == Ok(Less)) &&
            (forall i :: lb <= i < |keys| ==> cmp(keys[i].value) != Ok(Less))
    decreases hi - lo
  {
    if lo < hi {
      var mid := (lo + hi) / 2;
      if cmp(keys[mid].value) == Ok(Less) {
        assert forall i :: 0 <= i < mid ==> Rank(cmp, keys[i].value) <= Rank(cmp, keys[mid].value);
        LowerBoundIs(keys, cmp, mid + 1, hi);
      } else {
        assert forall i :: mid < i < |keys| ==> Rank(cmp, keys[mid].value) <= Rank(cmp, keys[i].value);
        LowerBoundIs(keys, cmp, lo, mid);
      }
    }
  }

  lemma {:induction false} LeafTraceIs(src: Source, node: Node, es: seq<Entry>, i: nat)
    requires Denotes(src, node, Leaf(es)) && i <= |es|
    ensures LeafTrace(node, i) == Trace(es[i..], None)
    decreases |es| - i
  {
    if i < |es| {
      LeafTraceIs(src, node, es, i + 1);
      assert es[i..] == [es[i]] + es[i + 1..];
    }
  }

  /** The order facts in terms of one comparator's ranks. */
  ghost predicate RankFits(cmp: Cmp, t: Tree) {
    Ranked(cmp, Flatten(t)) &&
    (t.Inner? ==>
       && |t.seps| == |t.kids|
       && RankedKeys(cmp, t.seps)
       && (forall i :: 0 <= i < |t.kids| - 1 ==> NotAbove(cmp, t.kids[i], t.seps[i + 1]))
       && forall i :: 0 <= i < |t.kids| ==> RankFits(cmp, t.kids[i]))
  }

  ghost predicate RankedKeys(cmp: Cmp, keys: seq<Bytes>) {
    (forall i :: 0 <= i < |keys| ==> cmp(keys[i]).Ok?) &&
    forall i, j :: 0 <= i < j < |keys| ==> Rank(cmp, keys[i]) <= Rank(cmp, keys[j])
  }

  ghost predicate NotAbove(cmp: Cmp, t: Tree, sep: Bytes) {
    forall e :: e in Flatten(t) ==> Rank(cmp, e.key) <= Rank(cmp, sep)
  }

  lemma {:induction false} OrderedFits(cmp: Cmp, le: (Bytes, Bytes) -> bool, t: Tree)
    requires Ordered(le, t) && Monotone(cmp, le) && Comparable(cmp, t)
    ensures RankFits(cmp, t)
    decreases t
  {
    ComparableFlat(cmp, t);
    if t.Inner? {
      forall i | 0 <= i < |t.kids|
        ensures RankFits(cmp, t.kids[i])
      {
        OrderedFits(cmp, le, t.kids[i]);
      }
      forall i | 0 <= i < |t.kids| - 1
        ensures NotAbove(cmp, t.kids[i], t.seps[i + 1])
      {
        ComparableFlat(cmp, t.kids[i]);
      }
    }
  }

  /** A pruned scan shows its visitor the entries from the first one not below the target, and no others.
      The callback cut is `Run`'s: with this, `ScanFrom` feeds `f` that suffix up to its first `false`. */
  lemma ScanRefinesFilter(src: Source, root: Node, cmp: Cmp, le: (Bytes, Bytes) -> bool, t: Tree)
    requires Levels(t, 17) && Denotes(src, root, t)
    requires Ordered(le, t) && Monotone(cmp, le) && Comparable(cmp, t)
    ensures WalkTrace(src, root, 0) == Trace(Flatten(t), None)
    ensures ScanTrace(src, root, cmp, 0) == Trace(DropLess(cmp, WalkTrace(src, root, 0).seen), None)
  {
    OrderedFits(cmp, le, t);
    WalkIsFlatten(src, root, t, 0);
    ScanIsDropLess(src, root, cmp, t, 0);
  }

  lemma {:induction false} ScanIsDropLess(src: Source, node: Node, cmp: Cmp, t: Tree, depth: nat)
    requires depth <= MAX_DEPTH && Levels(t, MAX_DEPTH + 1 - depth)
    requires Denotes(src, node, t) && RankFits(cmp, t)
    ensures ScanTrace(src, node, cmp, depth) == Trace(DropLess(cmp, Flatten(t)), None)
    decreases t, 1
  {
    if t.Leaf? {
      ScanLeaf(src, node, cmp, t, depth);
    } else {
      var lb := FirstNotLess(src, node, cmp, t);
      var start := if lb == 0 then 0 else lb - 1;
      SkippedKids(cmp, t, start, lb);
      KidTraces(src, node, cmp, t, depth);
      ScanKidsIs(src, node, cmp, t.kids, depth, start);
      assert ScanTrace(src, node, cmp, depth) == ScanKids(src, node, cmp, depth, start);
    }
  }

  lemma {:induction false} KidTraces(src: Source, node: Node, cmp: Cmp, t: Tree, depth: nat)
    requires depth <= MAX_DEPTH && t.Inner? && Levels(t, MAX_DEPTH + 1 - depth)
    requires Denotes(src, node, t) && RankFits(cmp, t)
    ensures forall j :: 0 <= j < |t.kids| ==> KidTrace(src, node, cmp, t.kids, depth, j)
    decreases t, 0
  {
    forall j | 0 <= j < |t.kids|
      ensures KidTrace(src, node, cmp, t.kids, depth, j)
    {
      assert Levels(t.kids[j], MAX_DEPTH - depth);
      ScanIsDropLess(src, Child(src, node, j).value, cmp, t.kids[j], depth + 1);
    }
  }

  /** Scanning child `j` shows what is left of its entries after dropping those below the target. */
  ghost predicate KidTrace(src: Source, node: Node, cmp: Cmp, kids: seq<Tree>, depth: nat, j: nat)
    requires depth <= MAX_DEPTH && j < |kids|
  {
    Child(src, node, j).Ok? &&
    ScanTrace(src, Child(src, node, j).value, cmp, depth + 1) == Trace(DropLess(cmp, Flatten(kids[j])), None)
  }

  lemma ScanLeaf(src: Source, node: Node, cmp: Cmp, t: Tree, depth: nat)
    requires depth <= MAX_DEPTH && t.Leaf?
    requires Denotes(src, node, t) && RankFits(cmp, t)
    ensures ScanTrace(src, node, cmp, depth) == Trace(DropLess(cmp, Flatten(t)), None)
  {
    var es := t.entries;
    forall i | 0 <= i < |es|
      ensures cmp(es[i].key).Ok?
    {
      assert es[i] in es;
    }
    LowerBoundIs(node.keys, cmp, 0, |es|);
    var lb := LowerBound(node.keys, cmp, 0, |es|).value;
    LeafTraceIs(src, node, es, lb);
    assert lb < |es| ==> node.keys[lb] == Ok(es[lb].key);
    DropLessAt(cmp, es, lb);
  }

  lemma FirstNotLess(src: Source, node: Node, cmp: Cmp, t: Tree) returns (lb: nat)
    requires t.Inner? && Denotes(src, node, t) && |t.seps| == |t.kids| && RankedKeys(cmp, t.seps)
    ensures LowerBound(node.keys, cmp, 0, |node.keys|) == Ok(lb) && lb <= |t.seps|
    ensures forall i :: 0 <= i < lb ==> cmp(t.seps[i]) == Ok(Less)
  {
    LowerBoundIs(node.keys, cmp, 0, |t.seps|);
    lb := LowerBound(node.keys, cmp, 0, |t.seps|).value;
    forall i | 0 <= i < lb
      ensures cmp(t.seps[i]) == Ok(Less)
    {
      assert cmp(node.keys[i].value) == Ok(Less);
    }
  }

  /** No skipped child holds an in-range key. */
  lemma SkippedKids(cmp: Cmp, t: Tree, start: nat, lb: nat)
    requires t.Inner? && RankFits(cmp, t) && lb <= |t.seps| && start == (if lb == 0 then 0 else lb - 1)
    requires forall i :: 0 <= i < lb ==> cmp(t.seps[i]) == Ok(Less)
    ensures DropLess(cmp, Flatten(t)) == DropLess(cmp, FlattenFrom(t.kids, start))
  {
    var kids := t.kids;
    forall i, e | 0 <= i < start && e in Flatten(kids[i])
      ensures cmp(e.key) == Ok(Less)
    {
      assert NotAbove(cmp, kids[i], t.seps[i + 1]);
      assert RankFits(cmp, kids[i]);
    }
    AllLess(cmp, kids, start);
    FlattenToFrom(kids, start);
    DropLessAppend(cmp, FlattenTo(kids, start), FlattenFrom(kids, start));
  }

  lemma {:induction false} ScanKidsIs(src: Source, node: Node, cmp: Cmp, kids: seq<Tree>, depth: nat, i: nat)
    requires depth <= MAX_DEPTH && |node.keys| == |kids| && i <= |kids|
    requires Ranked(cmp, FlattenFrom(kids, 0))
    requires forall j :: 0 <= j < |kids| ==> KidTrace(src, node, cmp, kids, depth, j)
    ensures ScanKids(src, node, cmp, depth, i) == Trace(DropLess(cmp, FlattenFrom(kids, i)), None)
    decreases |kids| - i
  {
    if i < |kids| {
      var rest := ScanKids(src, node, cmp, depth, i + 1);
      assert rest == Trace(DropLess(cmp, FlattenFrom(kids, i + 1)), None) by {
        ScanKidsIs(src, node, cmp, kids, depth, i + 1);
      }
      assert KidTrace(src, node, cmp, kids, depth, i);
      var first := Trace(DropLess(cmp, Flatten(kids[i])), None);
      assert ScanKids(src, node, cmp, depth, i) == Append(first, rest);
      KidsDrop(cmp, kids, i);
    }
  }

  lemma KidsDrop(cmp: Cmp, kids: seq<Tree>, i: nat)
    requires i < |kids| && Ranked(cmp, FlattenFrom(kids, 0))
    ensures DropLess(cmp, FlattenFrom(kids, i)) ==
            DropLess(cmp, Flatten(kids[i])) + DropLess(cmp, FlattenFrom(kids, i + 1))
  {
    FlattenToFrom(kids, i);
    RankedSuffix(cmp, FlattenTo(kids, i), FlattenFrom(kids, i));
    DropLessAppend(cmp, Flatten(kids[i]), FlattenFrom(kids, i + 1));
  }

  lemma RankedSuffix(cmp: Cmp, a: seq<Entry>, b: seq<Entry>)
    requires Ranked(cmp, a + b)
    ensures Ranked(cmp, b)
  {
    assert forall i :: 0 <= i < |b| ==> (a + b)[|a| + i] == b[i];
  }

  lemma {:induction false} AllLess(cmp: Cmp, kids: seq<Tree>, n: nat)
    requires n <= |kids|
    requires forall i, e :: 0 <= i < n && e in Flatten(kids[i]) ==> cmp(e.key) == Ok(Less)
    ensures DropLess(cmp, FlattenTo(kids, n)) == []
    ensures forall e :: e in FlattenTo(kids, n) ==> cmp(e.key) == Ok(Less)
  {
    if n > 0 {
      AllLess(cmp, kids, n - 1);
      DropLessAt(cmp, FlattenTo(kids, n), |FlattenTo(kids, n)|);
    }
  }

  /** A full walk shows every entry, in order. */
  lemma {:induction false} WalkIsFlatten(src: Source, node: Node, t: Tree, depth: nat)
    requires depth <= MAX_DEPTH && Levels(t, MAX_DEPTH + 1 - depth) && Denotes(src, node, t)
    ensures WalkTrace(src, node, depth) == Trace(Flatten(t), None)
    decreases t
  {
    if t.Leaf? {
      LeafTraceIs(src, node, t.entries, 0);
    } else {
      WalkKidsIs(src, node, t, depth, 0);
    }
  }

  lemma {:induction false} WalkKidsIs(src: Source, node: Node, t: Tree, depth: nat, i: nat)
    requires depth <= MAX_DEPTH && t.Inner? && i <= |t.kids| && Levels(t, MAX_DEPTH + 1 - depth)
    requires Denotes(src, node, t)
    ensures WalkKids(src, node, depth, i) == Trace(FlattenFrom(t.kids, i), None)
    decreases t, |t.kids| - i
  {
    if i < |t.kids| {
      assert Levels(t.kids[i], MAX_DEPTH - depth);
      WalkIsFlatten(src, Child(src, node, i).value, t.kids[i], depth + 1);
      WalkKidsIs(src, node, t, depth, i + 1);
    }
  }

  /** 17 levels is exactly what a walk accepts: any tree reaching deeper ends in an error, as corrupt. */
  lemma {:induction false} WalkRejectsDeeper(src: Source, node: Node, t: Tree, depth: nat)
    requires depth <= MAX_DEPTH + 1 && Denotes(src, node, t)
    ensures WalkTrace(src, node, depth).end.None? <==> Levels(t, 17 - depth)
    ensures WalkTrace(src, node, depth).end in {None, Some(Corrupt)}
    decreases t
  {
    if depth <= MAX_DEPTH {
      if t.Leaf? {
        LeafTraceIs(src, node, t.entries, 0);
      } else {
        WalkKidsReject(src, node, t, depth, 0);
      }
    }
  }

  lemma {:induction false} WalkKidsReject(src: Source, node: Node, t: Tree, depth: nat, i: nat)
    requires depth <= MAX_DEPTH && t.Inner? && i <= |t.kids|
    requires Denotes(src, node, t)
    ensures WalkKids(src, node, depth, i).end.None? <==>
            forall j :: i <= j < |t.kids| ==> Levels(t.kids[j], MAX_DEPTH - depth)
    ensures WalkKids(src, node, depth, i).end in {None, Some(Corrupt)}
    decreases t, |t.kids| - i
  {
    if i < |t.kids| {
      WalkRejectsDeeper(src, Child(src, node, i).value, t.kids[i], depth + 1);
      WalkKidsReject(src, node, t, depth, i + 1);
    }
  }

  // ---------- any node store, cycles included ----------

  /** `e` is an entry of a leaf that `node` reaches in at most `hops` loads. */
  ghost predicate Reachable(src: Source, node: Node, e: Entry, hops: nat)
    decreases hops
  {
    if node.leaf then
      exists i :: 0 <= i < |node.keys| && node.keys[i] == Ok(e.key) && node.vals[i] == Ok(e.val)
    else
      hops > 0 && exists i :: 0 <= i < |node.keys| && Child(src, node, i).Ok? &&
                              Reachable(src, Child(src, node, i).value, e, hops - 1)
  }

  lemma {:induction false} LeafTraceSound(src: Source, node: Node, i: nat, hops: nat)
    requires node.leaf && i <= |node.keys|
    ensures forall e :: e in LeafTrace(node, i).seen ==> Reachable(src, node, e, hops)
    decreases |node.keys| - i
  {
    if i < |node.keys| {
      LeafTraceSound(src, node, i + 1, hops);
    }
  }

  lemma {:induction false} ScanSound(src: Source, node: Node, cmp: Cmp, depth: nat)
    requires depth <= MAX_DEPTH + 1
    ensures forall e :: e in ScanTrace(src, node, cmp, depth).seen ==>
              depth <= MAX_DEPTH && Reachable(src, node, e, 16 - depth)
    decreases MAX_DEPTH + 1 - depth, |node.keys| + 1
  {
    if depth <= MAX_DEPTH {
      var lb := LowerBound(node.keys, cmp, 0, |node.keys|);
      if lb.Ok? {
        if node.leaf {
          LeafTraceSound(src, node, lb.value, MAX_DEPTH - depth);
        } else {
          ScanKidsSound(src, node, cmp, depth, if lb.value == 0 then 0 else lb.value - 1);
        }
      }
    }
  }

  lemma {:induction false} ScanKidsSound(src: Source, node: Node, cmp: Cmp, depth: nat, i: nat)
    requires depth <= MAX_DEPTH && i <= |node.keys| && !node.leaf
    ensures forall e :: e in ScanKids(src, node, cmp, depth, i).seen ==> Reachable(src, node, e, MAX_DEPTH - depth)
    decreases MAX_DEPTH + 1 - depth, |node.keys| - i
  {
    if i < |node.keys| {
      var child := Child(src, node, i);
      if child.Ok? {
        ScanSound(src, child.value, cmp, depth + 1);
        ScanKidsSound(src, node, cmp, depth, i + 1);
      }
    }
  }

  /** A walk sees every reachable entry or ends in an error, and never invents one. */
  lemma {:induction false} WalkSound(src: Source, node: Node, depth: nat)
    requires depth <= MAX_DEPTH + 1
    ensures forall e :: e in WalkTrace(src, node, depth).seen ==>
              depth <= MAX_DEPTH && Reachable(src, node, e, 16 - depth)
    ensures WalkTrace(src, node, depth).end.None? ==>
              forall e, h: nat :: Reachable(src, node, e, h) ==> e in WalkTrace(src, node, depth).seen
    decreases MAX_DEPTH + 1 - depth, |node.keys| + 1
  {
    if depth <= MAX_DEPTH {
      if node.leaf {
        LeafTraceSound(src, node, 0, MAX_DEPTH - depth);
        if LeafTrace(node, 0).end.None? {
          LeafTraceComplete(node, 0);
        }
      } else {
        WalkKidsSound(src, node, depth, 0);
      }
    }
  }

  lemma {:induction false} LeafTraceComplete(node: Node, i: nat)
    requires i <= |node.keys|
    requires LeafTrace(node, i).end.None?
    ensures forall j :: i <= j < |node.keys| ==> (
              node.keys[j].Ok? && node.vals[j].Ok? &&
              Entry(node.keys[j].value, node.vals[j].value) in LeafTrace(node, i).seen)
    decreases |node.keys| - i
  {
    if i < |node.keys| {
      LeafTraceComplete(node, i + 1);
    }
  }

  lemma {:induction false} WalkKidsSound(src: Source, node: Node, depth: nat, i: nat)
    requires depth <= MAX_DEPTH && i <= |node.keys| && !node.leaf
    ensures forall e :: e in WalkKids(src, node, depth, i).seen ==> Reachable(src, node, e, MAX_DEPTH - depth)
    ensures WalkKids(src, node, depth, i).end.None? ==>
              forall j, e, h: nat :: i <= j < |node.keys| && Child(src, node, j).Ok? && Reachable(src, Child(src, node, j).value, e, h)
                ==> e in WalkKids(src, node, depth, i).seen
    decreases MAX_DEPTH + 1 - depth, |node.keys| - i
  {
    if i < |node.keys| {
      var child := Child(src, node, i);
      if child.Ok? {
        WalkSound(src, child.value, depth + 1);
        WalkKidsSound(src, node, depth, i + 1);
      }
    }
  }

  /** `leaf` is a leaf that `node` reaches in at most `hops` loads. */
  ghost predicate ReachesLeaf(src: Source, node: Node, leaf: Node, hops: nat)
    decreases hops
  {
    if node.leaf then leaf == node
    else
      hops > 0 && exists i :: 0 <= i < |node.keys| && Child(src, node, i).Ok? &&
                              ReachesLeaf(src, Child(src, node, i).value, leaf, hops - 1)
  }

  lemma {:induction false} SearchInRange(keys: seq<Result<Bytes>>, cmp: Cmp, lo: nat, hi: nat)
    requires lo <= hi <= |keys|
    ensures var r := SearchRange(keys, cmp, lo, hi);
            r.Ok? && |keys| > 0 ==> DescentIndex(r.value) < |keys|
    decreases hi - lo
  {
    if lo < hi {
      SearchInRange(keys, cmp, (lo + hi) / 2 + 1, hi);
      SearchInRange(keys, cmp, lo, (lo + hi) / 2);
    }
  }

  lemma {:induction false} DescendSound(src: Source, node: Node, cmp: Cmp, depth: nat)
    requires depth <= MAX_DEPTH
    ensures var r := Descend(src, node, cmp, depth);
            r.Ok? ==> ReachesLeaf(src, node, r.value, 16 - depth)
    decreases MAX_DEPTH - depth
  {
    if !node.leaf && depth < MAX_DEPTH {
      SearchInRange(node.keys, cmp, 0, |node.keys|);
      var p := SearchRange(node.keys, cmp, 0, |node.keys|);
      if p.Ok? {
        var child := Child(src, node, DescentIndex(p.value));
        if child.Ok? {
          DescendSound(src, child.value, cmp, depth + 1);
        }
      }
    }
  }

  // ---------- descent finds the predecessor ----------

  /** Every separator is exactly its subtree's smallest key, and no subtree is empty. */
  ghost predicate ExactSeps(t: Tree) {
    t.Inner? ==>
      && |t.seps| == |t.kids| > 0
      && forall i :: 0 <= i < |t.kids| ==>
           ExactSeps(t.kids[i]) && Flatten(t.kids[i]) != [] && t.seps[i] == Flatten(t.kids[i])[0].key
  }

  /** Ranks ascend and at most one key compares equal. */
  ghost predicate Strict(cmp: Cmp, es: seq<Entry>) {
    (forall e :: e in es ==> cmp(e.key).Ok?) &&
    forall i, j :: 0 <= i < j < |es| ==>
      Rank(cmp, es[i].key) <= Rank(cmp, es[j].key) && (Rank(cmp, es[i].key) != 1 || Rank(cmp, es[j].key) != 1)
  }

  lemma {:induction false} SearchIs(keys: seq<Result<Bytes>>, cmp: Cmp, lo: nat, hi: nat)
    requires lo <= hi <= |keys|
    requires forall i :: 0 <= i < |keys| ==> keys[i].Ok? && cmp(keys[i].value).Ok?
    requires forall i, j :: 0 <= i < j < |keys| ==> Rank(cmp, keys[i].value) <= Rank(cmp, keys[j].value)
    requires forall i :: 0 <= i < lo ==> cmp(keys[i].value) == Ok(Less)
    requires forall i :: hi <= i < |keys| ==> cmp(keys[i].value) == Ok(Greater)
    ensures match SearchRange(keys, cmp, lo, hi)
            case Ok(Found(i)) => i < |keys| && cmp(keys[i].value) == Ok(Equal)
            case Ok(Before(None)) => forall i :: 0 <= i < |keys| ==> cmp(keys[i].value) == Ok(Greater)
            case Ok(Before(Some(i))) =>
              i < |keys| && (forall j :: 0 <= j <= i ==> cmp(keys[j].value) == Ok(Less)) &&
              (forall j :: i < j < |keys| ==> cmp(keys[j].value) == Ok(Greater))
            case Err(_) => false
    decreases hi - lo
  {
    if lo < hi {
      var mid := (lo + hi) / 2;
      match cmp(keys[mid].value).value
      case Less =>
        assert forall i :: 0 <= i < mid ==> Rank(cmp, keys[i].value) <= Rank(cmp, keys[mid].value);
        SearchIs(keys, cmp, mid + 1, hi);
      case Greater =>
        assert forall i :: mid < i < |keys| ==> Rank(cmp, keys[mid].value) <= Rank(cmp, keys[i].value);
        SearchIs(keys, cmp, lo, mid);
      case Equal =>
    }
  }

  /** The position of a child's first entry in the flattened tree. */
  lemma {:induction false} KidAt(kids: seq<Tree>, i: nat)
    requires i < |kids|
    ensures FlattenFrom(kids, 0) == FlattenTo(kids, i) + Flatten(kids[i]) + FlattenFrom(kids, i + 1)
  {
    FlattenToFrom(kids, i);
    assert FlattenFrom(kids, i) == Flatten(kids[i]) + FlattenFrom(kids, i + 1);
  }

  lemma {:induction false} OffsetsGrow(kids: seq<Tree>, i: nat, j: nat)
    requires i < j <= |kids|
    ensures |FlattenTo(kids, j)| >= |FlattenTo(kids, i)| + |Flatten(kids[i])|
  {
    if i < j - 1 {
      OffsetsGrow(kids, i, j - 1);
    }
  }

  lemma SepsStrict(cmp: Cmp, t: Tree)
    requires t.Inner? && ExactSeps(t) && Strict(cmp, Flatten(t))
    ensures forall i :: 0 <= i < |t.seps| ==> cmp(t.seps[i]).Ok?
    ensures forall i, j :: 0 <= i < j < |t.seps| ==>
              Rank(cmp, t.seps[i]) <= Rank(cmp, t.seps[j]) && (Rank(cmp, t.seps[i]) != 1 || Rank(cmp, t.seps[j]) != 1)
  {
    forall i | 0 <= i < |t.seps|
      ensures |FlattenTo(t.kids, i)| < |Flatten(t)| && Flatten(t)[|FlattenTo(t.kids, i)|].key == t.seps[i]
    {
      KidAt(t.kids, i);
    }
    forall i, j | 0 <= i < j < |t.seps|
      ensures |FlattenTo(t.kids, i)| < |FlattenTo(t.kids, j)|
    {
      OffsetsGrow(t.kids, i, j);
    }
  }

  lemma StrictPart(cmp: Cmp, a: seq<Entry>, b: seq<Entry>, c: seq<Entry>)
    requires Strict(cmp, a + b + c)
    ensures Strict(cmp, b)
    ensures forall x, y :: x in a && y in b ==> Rank(cmp, x.key) <= Rank(cmp, y.key) && (Rank(cmp, x.key) != 1 || Rank(cmp, y.key) != 1)
    ensures forall y, z :: y in b && z in c ==> Rank(cmp, y.key) <= Rank(cmp, z.key) && (Rank(cmp, y.key) != 1 || Rank(cmp, z.key) != 1)
  {
    var s := a + b + c;
    assert forall i :: 0 <= i < |a| ==> s[i] == a[i];
    assert forall i :: 0 <= i < |b| ==> s[|a| + i] == b[i];
    assert forall i :: 0 <= i < |c| ==> s[|a| + |b| + i] == c[i];
  }

  /** `es` sits in `all` with everything before it below the target and everything after it above;
      if anything comes before it, it starts at or below the target. */
  ghost predicate Brackets(cmp: Cmp, all: seq<Entry>, pre: seq<Entry>, es: seq<Entry>, post: seq<Entry>) {
    && all == pre + es + post
    && (forall e :: e in pre ==> cmp(e.key) == Ok(Less))
    && (forall e :: e in post ==> cmp(e.key) == Ok(Greater))
    && (pre != [] ==> es != [] && Rank(cmp, es[0].key) <= 1)
  }

  /** The single leaf a descent ends in holds the target's predecessor among all entries of the tree. */
  lemma {:induction false} DescentPredecessor(src: Source, node: Node, cmp: Cmp, t: Tree, depth: nat)
    returns (pre: seq<Entry>, es: seq<Entry>, post: seq<Entry>)
    requires depth <= MAX_DEPTH && Levels(t, MAX_DEPTH + 1 - depth)
    requires Denotes(src, node, t) && ExactSeps(t) && Strict(cmp, Flatten(t))
    ensures Descend(src, node, cmp, depth).Ok?
    ensures Denotes(src, Descend(src, node, cmp, depth).value, Leaf(es))
    ensures Brackets(cmp, Flatten(t), pre, es, post)
    ensures Flatten(t) != [] ==> es != []
    decreases t, 1
  {
    if t.Leaf? {
      pre, es, post := [], t.entries, [];
      assert Flatten(t) == pre + es + post;
    } else {
      pre, es, post := DescentInner(src, node, cmp, t, depth);
    }
  }

  lemma {:induction false} DescentInner(src: Source, node: Node, cmp: Cmp, t: Tree, depth: nat)
    returns (pre: seq<Entry>, es: seq<Entry>, post: seq<Entry>)
    requires depth <= MAX_DEPTH && t.Inner? && Levels(t, MAX_DEPTH + 1 - depth)
    requires Denotes(src, node, t) && ExactSeps(t) && Strict(cmp, Flatten(t))
    ensures Descend(src, node, cmp, depth).Ok?
    ensures Denotes(src, Descend(src, node, cmp, depth).value, Leaf(es))
    ensures Brackets(cmp, Flatten(t), pre, es, post) && es != []
    decreases t, 0
  {
    hide Denotes, Strict, Levels, Flatten, Descend, Brackets, Child, ExactSeps;
    var idx, child := PickKid(src, node, cmp, t, depth);
    var a, c;
    a, es, c := DescentPredecessor(src, child, cmp, t.kids[idx], depth + 1);
    pre, post := Widen(cmp, t, idx, a, es, c);
  }

  lemma PickKid(src: Source, node: Node, cmp: Cmp, t: Tree, depth: nat) returns (idx: nat, child: Node)
    requires depth <= MAX_DEPTH && t.Inner? && Levels(t, MAX_DEPTH + 1 - depth)
    requires Denotes(src, node, t) && ExactSeps(t) && Strict(cmp, Flatten(t))
    ensures idx < |t.kids| == |t.seps|
    ensures idx > 0 ==> Rank(cmp, t.seps[idx]) <= 1
    ensures idx + 1 < |t.seps| ==> Rank(cmp, t.seps[idx + 1]) == 2
    ensures depth + 1 <= MAX_DEPTH && Levels(t.kids[idx], MAX_DEPTH - depth)
    ensures Denotes(src, child, t.kids[idx]) && ExactSeps(t.kids[idx])
    ensures Strict(cmp, Flatten(t.kids[idx])) && Flatten(t.kids[idx]) != []
    ensures Descend(src, node, cmp, depth) == Descend(src, child, cmp, depth + 1)
  {
    idx := ChosenKid(src, node, cmp, t);
    child := Child(src, node, idx).value;
    ChosenDescent(src, node, cmp, t, depth, idx);
    ChosenSides(cmp, t, idx);
  }

  /** The bracket around a leaf among a child's entries, widened to its parent's. */
  lemma Widen(cmp: Cmp, t: Tree, idx: nat, a: seq<Entry>, es: seq<Entry>, c: seq<Entry>)
    returns (pre: seq<Entry>, post: seq<Entry>)
    requires t.Inner? && ExactSeps(t) && Strict(cmp, Flatten(t)) && idx < |t.kids|
    requires idx > 0 ==> Rank(cmp, t.seps[idx]) <= 1
    requires idx + 1 < |t.seps| ==> Rank(cmp, t.seps[idx + 1]) == 2
    requires Brackets(cmp, Flatten(t.kids[idx]), a, es, c) && es != []
    ensures Brackets(cmp, Flatten(t), pre, es, post)
  {
    ChosenSides(cmp, t, idx);
    var left, right := FlattenTo(t.kids, idx), FlattenFrom(t.kids, idx + 1);
    KidAt(t.kids, idx);
    Regroup(left, a, es, c, right);
    assert a == [] ==> Flatten(t.kids[idx])[0] == es[0];
    assert idx == 0 ==> left == [];
    pre, post := left + a, c + right;
  }

  lemma ChosenDescent(src: Source, node: Node, cmp: Cmp, t: Tree, depth: nat, idx: nat)
    requires depth <= MAX_DEPTH && t.Inner? && Levels(t, MAX_DEPTH + 1 - depth)
    requires Denotes(src, node, t) && ExactSeps(t) && idx < |t.kids|
    requires var p := SearchRange(node.keys, cmp, 0, |node.keys|); p.Ok? && idx == DescentIndex(p.value)
    ensures depth + 1 <= MAX_DEPTH && Levels(t.kids[idx], MAX_DEPTH - depth)
    ensures Child(src, node, idx).Ok? && Denotes(src, Child(src, node, idx).value, t.kids[idx]) && ExactSeps(t.kids[idx])
    ensures Descend(src, node, cmp, depth) == Descend(src, Child(src, node, idx).value, cmp, depth + 1)
  {
    assert Levels(t.kids[idx], MAX_DEPTH - depth);
  }

  lemma Regroup<T>(a: seq<T>, b: seq<T>, c: seq<T>, d: seq<T>, e: seq<T>)
    ensures a + (b + c + d) + e == (a + b) + c + (d + e)
  {
  }

  /** The child a descent picks: its separator is not above the target, the next one is. */
  lemma ChosenKid(src: Source, node: Node, cmp: Cmp, t: Tree) returns (idx: nat)
    requires t.Inner? && Denotes(src, node, t) && ExactSeps(t) && Strict(cmp, Flatten(t))
    ensures idx < |t.kids|
    ensures var p := SearchRange(node.keys, cmp, 0, |node.keys|); p.Ok? && idx == DescentIndex(p.value)
    ensures idx > 0 ==> Rank(cmp, t.seps[idx]) <= 1
    ensures idx + 1 < |t.seps| ==> Rank(cmp, t.seps[idx + 1]) == 2
  {
    var seps := t.seps;
    SepsStrict(cmp, t);
    SearchIs(node.keys, cmp, 0, |seps|);
    idx := DescentIndex(SearchRange(node.keys, cmp, 0, |seps|).value);
    assert node.keys[idx] == Ok(seps[idx]);
    assert idx + 1 < |seps| ==> node.keys[idx + 1] == Ok(seps[idx + 1]);
  }

  /** All entries to the left of the chosen child are below the target, all to its right above. */
  lemma ChosenSides(cmp: Cmp, t: Tree, idx: nat)
    requires t.Inner? && ExactSeps(t) && Strict(cmp, Flatten(t)) && idx < |t.kids|
    requires idx > 0 ==> Rank(cmp, t.seps[idx]) <= 1
    requires idx + 1 < |t.seps| ==> Rank(cmp, t.seps[idx + 1]) == 2
    ensures Strict(cmp, Flatten(t.kids[idx]))
    ensures forall e :: e in FlattenTo(t.kids, idx) ==> cmp(e.key) == Ok(Less)
    ensures forall e :: e in FlattenFrom(t.kids, idx + 1) ==> cmp(e.key) == Ok(Greater)
  {
    KidAt(t.kids, idx);
    if idx + 1 < |t.kids| {
      assert FlattenFrom(t.kids, idx + 1)[0] == Flatten(t.kids[idx + 1])[0];
    }
    SplitRanks(cmp, FlattenTo(t.kids, idx), Flatten(t.kids[idx]), FlattenFrom(t.kids, idx + 1));
  }

  lemma SplitRanks(cmp: Cmp, a: seq<Entry>, b: seq<Entry>, c: seq<Entry>)
    requires Strict(cmp, a + b + c) && b != []
    requires a != [] ==> Rank(cmp, b[0].key) <= 1
    requires c != [] ==> Rank(cmp, c[0].key) == 2
    ensures Strict(cmp, b)
    ensures forall e :: e in a ==> cmp(e.key) == Ok(Less)
    ensures forall e :: e in c ==> cmp(e.key) == Ok(Greater)
  {
    StrictPart(cmp, a, b, c);
    assert b[0] in b;
    assert (a + b) + c + [] == a + b + c;
    StrictPart(cmp, a + b, c, []);
    forall e | e in c
      ensures cmp(e.key) == Ok(Greater)
    {
      var j :| 0 <= j < |c| && c[j] == e;
      assert j > 0 ==> Rank(cmp, c[0].key) <= Rank(cmp, c[j].key);
    }
  }
}
