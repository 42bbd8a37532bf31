/** What lookups in an object map mean, and exactly what they need of its tree. */
module OmapTheory {
  import opened Bytes
  import opened BTree
  import opened BTreeTheory
  import opened NodeCodec
  import opened Omap

  // ---------- one leaf ----------

  /** The leaf's own search: a miss, or the entry it stops at if that is a version of the oid. */
  lemma LeafSearch(leaf: Node, src: Source, es: seq<Entry>, oid: nat, xid: nat) returns (found: Option<nat>)
    requires Denotes(src, leaf, Leaf(es)) && Strict(OmapCmp(oid, xid), es)
    ensures found.None? ==> forall i :: 0 <= i < |es| ==> KeyAbove(leaf, oid, xid, i)
    ensures found.None? ==> LookupInLeaf(leaf, oid, xid) == Err(OmapMiss(oid, xid))
    ensures found.Some? ==> found.value < |es| && Rank(OmapCmp(oid, xid), es[found.value].key) <= 1
    ensures found.Some? ==> forall i :: found.value < i < |es| ==> Rank(OmapCmp(oid, xid), es[i].key) == 2
    ensures found.Some? && Keyed(es[found.value]) ==>
              (LookupInLeaf(leaf, oid, xid) ==
               if Oid(es[found.value]) == oid then DecodeMapping(oid, xid, es[found.value]) else Err(OmapMiss(oid, xid)))
  {
    var cmp := OmapCmp(oid, xid);
    forall i | 0 <= i < |es|
      ensures leaf.keys[i] == Ok(es[i].key) && cmp(es[i].key).Ok?
    {
      assert es[i] in es;
    }
    SearchIs(leaf.keys, cmp, 0, |es|);
    var pos := SearchRange(leaf.keys, cmp, 0, |es|).value;
    found := if pos == Before(None) then None else Some(DescentIndex(pos));
    if found.Some? {
      forall i | found.value < i < |es|
        ensures Rank(cmp, es[i].key) == 2
      {
        assert Rank(cmp, es[found.value].key) <= Rank(cmp, es[i].key);
        assert leaf.keys[i] == Ok(es[i].key);
      }
    }
  }

  /** Searching the bracketing leaf answers for the whole tree. */
  lemma LeafAnswers(leaf: Node, src: Source, all: seq<Entry>, pre: seq<Entry>, es: seq<Entry>, post: seq<Entry>, oid: nat, xid: nat)
    requires Versions(all) && Denotes(src, leaf, Leaf(es))
    requires Brackets(OmapCmp(oid, xid), all, pre, es, post)
    ensures LookupInLeaf(leaf, oid, xid) == Resolve(all, oid, xid)
  {
    hide LookupInLeaf, DecodeMapping, Denotes, KeyAbove;
    StrictVersions(all, oid, xid);
    StrictPart(OmapCmp(oid, xid), pre, es, post);
    var found := LeafSearch(leaf, src, es, oid, xid);
    if found.None? {
      NothingAtOrBefore(leaf, src, all, pre, es, post, oid, xid);
    } else {
      AboveAfter(OmapCmp(oid, xid), all, pre, es, post, found.value);
      LatestAt(all, |pre| + found.value, oid, xid);
    }
  }

  lemma AboveAfter(cmp: Cmp, all: seq<Entry>, pre: seq<Entry>, es: seq<Entry>, post: seq<Entry>, idx: nat)
    requires Brackets(cmp, all, pre, es, post) && idx < |es|
    requires forall i :: idx < i < |es| ==> Rank(cmp, es[i].key) == 2
    ensures |pre| + idx < |all| && all[|pre| + idx] == es[idx] && es[idx] in all
    ensures forall i :: |pre| + idx < i < |all| ==> Rank(cmp, all[i].key) == 2
  {
    assert all[|pre| + idx] == es[idx];
    forall i | |pre| + idx < i < |all|
      ensures Rank(cmp, all[i].key) == 2
    {
      if i < |pre| + |es| {
        assert all[i] == es[i - |pre|];
      } else {
        assert all[i] == post[i - |pre| - |es|] && all[i] in post;
      }
    }
  }

  lemma NothingAtOrBefore(leaf: Node, src: Source, all: seq<Entry>, pre: seq<Entry>, es: seq<Entry>, post: seq<Entry>, oid: nat, xid: nat)
    requires Versions(all) && Denotes(src, leaf, Leaf(es))
    requires Brackets(OmapCmp(oid, xid), all, pre, es, post)
    requires forall i :: 0 <= i < |es| ==> KeyAbove(leaf, oid, xid, i)
    ensures Latest(all, oid, xid) == None
  {
    var cmp := OmapCmp(oid, xid);
    assert pre != [] ==> KeyAbove(leaf, oid, xid, 0);
    forall e | e in all
      ensures !Covers(e, oid, xid)
    {
      if e in es {
        var i :| 0 <= i < |es| && es[i] == e;
        assert KeyAbove(leaf, oid, xid, i);
      }
    }
    LatestNone(all, oid, xid);
  }

  ghost predicate KeyAbove(leaf: Node, oid: nat, xid: nat, i: nat) {
    i < |leaf.keys| && leaf.keys[i].Ok? && OmapCmp(oid, xid)(leaf.keys[i].value) == Ok(Greater)
  }

  // ---------- what lookups need of separators ----------

  ghost function First(es: seq<Entry>): Entry
    requires es != []
  {
    es[0]
  }

  ghost function Last(es: seq<Entry>): Entry
    requires es != []
  {
    es[|es| - 1]
  }

  /** A separator read as an entry, so that it can be compared with one. */
  ghost function SepEntry(s: Bytes): Entry {
    Entry(s, None)
  }

  /** `s` may stand between `p`, the last entry of one child, and `m`, the first of the next: above `p`, not
      above `m`, and, unless it is `m`'s own key, of a later oid than `p`. */
  ghost predicate SepFits(p: Entry, s: Bytes, m: Entry) {
    Keyed(p) && Keyed(m) && Keyed(SepEntry(s)) &&
    var q := SepEntry(s);
    Earlier(p, q) && !Earlier(m, q) && (Oid(p) < Oid(q) || !Earlier(q, m))
  }

  ghost predicate KidFits(t: Tree, i: nat) {
    t.Inner? && 0 < i < |t.kids| == |t.seps| && Flatten(t.kids[i - 1]) != [] && Flatten(t.kids[i]) != [] &&
    SepFits(Last(Flatten(t.kids[i - 1])), t.seps[i], First(Flatten(t.kids[i])))
  }

  /** Every separator fits, at every node, a node's first one aside: that one plays no part. */
  ghost predicate Separated(t: Tree) {
    t.Inner? ==>
      && (forall i :: 0 < i < |t.kids| ==> KidFits(t, i))
      && forall i :: 0 <= i < |t.kids| ==> Separated(t.kids[i])
  }

  /** Separators are long enough to compare, one per child, and no subtree is empty. */
  ghost predicate KeyedInside(t: Tree) {
    t.Inner? ==>
      && |t.seps| == |t.kids| > 0
      && (forall i :: 0 <= i < |t.seps| ==> Keyed(SepEntry(t.seps[i])))
      && forall i :: 0 <= i < |t.kids| ==> Flatten(t.kids[i]) != [] && KeyedInside(t.kids[i])
  }

  ghost predicate Navigable(t: Tree) {
    KeyedInside(t) && Separated(t)
  }

  /** Separators after the first ascend. */
  ghost predicate SepsRise(t: Tree) {
    t.Inner? && KeyedInside(t) &&
    forall i, j :: 0 < i < j < |t.seps| ==> Earlier(SepEntry(t.seps[i]), SepEntry(t.seps[j]))
  }

  ghost predicate SepsRiseInside(t: Tree) {
    t.Inner? ==> SepsRise(t) && forall i :: 0 <= i < |t.kids| ==> SepsRiseInside(t.kids[i])
  }

  lemma RankIs(e: Entry, oid: nat, xid: nat)
    requires Keyed(e)
    ensures OmapCmp(oid, xid)(e.key).Ok?
    ensures Rank(OmapCmp(oid, xid), e.key) == 0 <==> Oid(e) < oid || (Oid(e) == oid && Xid(e) < xid)
    ensures Rank(OmapCmp(oid, xid), e.key) == 1 <==> Oid(e) == oid && Xid(e) == xid
    ensures Rank(OmapCmp(oid, xid), e.key) == 2 <==> oid < Oid(e) || (Oid(e) == oid && xid < Xid(e))
  {
    hide Field;
  }

  lemma EarlierTransitive(a: Entry, b: Entry, c: Entry)
    requires Keyed(a) && Keyed(b) && Keyed(c)
    ensures Earlier(a, b) && Earlier(b, c) ==> Earlier(a, c)
    ensures Earlier(a, b) && !Earlier(c, b) ==> Earlier(a, c)
    ensures !Earlier(b, a) && Earlier(b, c) ==> Earlier(a, c)
  {
    hide Field;
  }

  // ---------- order across children ----------

  lemma InVersions(es: seq<Entry>, i: nat, j: nat)
    requires Versions(es) && i < |es| && j < |es|
    ensures Keyed(es[i]) && Keyed(es[j])
    ensures i <= j <==> !Earlier(es[j], es[i])
    ensures i < j <==> Earlier(es[i], es[j])
  {
    hide Field;
    assert es[i] in es && es[j] in es;
    assert i < j ==> Earlier(es[i], es[j]);
    assert j < i ==> Earlier(es[j], es[i]);
  }

  /** Where an entry of child `i` lies in the whole. */
  lemma KidPosition(t: Tree, i: nat, k: nat)
    requires t.Inner? && i < |t.kids| && k < |Flatten(t.kids[i])|
    ensures |FlattenTo(t.kids, i)| + |Flatten(t.kids[i])| <= |Flatten(t)|
    ensures Flatten(t)[|FlattenTo(t.kids, i)| + k] == Flatten(t.kids[i])[k]
  {
    KidAt(t.kids, i);
  }

  lemma KidVersions(t: Tree, i: nat)
    requires t.Inner? && Versions(Flatten(t)) && i < |t.kids|
    ensures Versions(Flatten(t.kids[i]))
  {
    hide Field;
    var es, all, off := Flatten(t.kids[i]), Flatten(t), |FlattenTo(t.kids, i)|;
    forall k | 0 <= k < |es|
      ensures off + k < |all| && all[off + k] == es[k]
    {
      KidPosition(t, i, k);
    }
    forall a, b | 0 <= a < b < |es|
      ensures Earlier(es[a], es[b])
    {
      assert all[off + a] == es[a] && all[off + b] == es[b];
      InVersions(all, off + a, off + b);
    }
    forall e | e in es
      ensures Keyed(e)
    {
      var k :| 0 <= k < |es| && es[k] == e;
      assert all[off + k] in all;
    }
  }

  /** Entries of an earlier child are earlier. */
  lemma AcrossKids(t: Tree, i: nat, j: nat, a: Entry, b: Entry)
    requires t.Inner? && Versions(Flatten(t)) && i < j < |t.kids|
    requires a in Flatten(t.kids[i]) && b in Flatten(t.kids[j])
    ensures Keyed(a) && Keyed(b) && Earlier(a, b)
  {
    var k :| 0 <= k < |Flatten(t.kids[i])| && Flatten(t.kids[i])[k] == a;
    var l :| 0 <= l < |Flatten(t.kids[j])| && Flatten(t.kids[j])[l] == b;
    KidPosition(t, i, k);
    KidPosition(t, j, l);
    OffsetsGrow(t.kids, i, j);
    InVersions(Flatten(t), |FlattenTo(t.kids, i)| + k, |FlattenTo(t.kids, j)| + l);
  }

  lemma Ends(es: seq<Entry>, e: Entry)
    requires Versions(es) && e in es
    ensures Keyed(First(es)) && Keyed(Last(es)) && Keyed(e) && !Earlier(e, First(es)) && !Earlier(Last(es), e)
  {
    var k :| 0 <= k < |es| && es[k] == e;
    InVersions(es, 0, k);
    InVersions(es, k, |es| - 1);
  }

  /** Fitting separators rise: each lies between its neighbours' entries. */
  lemma FittingRises(t: Tree)
    requires t.Inner? && Versions(Flatten(t)) && Navigable(t)
    ensures SepsRise(t)
  {
    hide Field, Versions;
    forall i, j | 0 < i < j < |t.seps|
      ensures Earlier(SepEntry(t.seps[i]), SepEntry(t.seps[j]))
    {
      assert KidFits(t, i) && KidFits(t, j);
      var m, p := First(Flatten(t.kids[i])), Last(Flatten(t.kids[j - 1]));
      if i < j - 1 {
        AcrossKids(t, i, j - 1, m, p);
      } else {
        KidVersions(t, i);
        Ends(Flatten(t.kids[i]), m);
      }
      EarlierTransitive(m, p, SepEntry(t.seps[j]));
      EarlierTransitive(SepEntry(t.seps[i]), m, SepEntry(t.seps[j]));
    }
  }

  // ---------- the child a descent picks ----------

  /** Keys that compare, those after the first in ascending rank with at most one equal to the target. */
  ghost predicate RisesBehind(keys: seq<Result<Bytes>>, cmp: Cmp) {
    (forall i :: 0 <= i < |keys| ==> keys[i].Ok? && cmp(keys[i].value).Ok?) &&
    forall i, j :: 0 < i < j < |keys| ==> RankAt(keys, cmp, i) == 0 || RankAt(keys, cmp, j) == 2
  }

  ghost function RankAt(keys: seq<Result<Bytes>>, cmp: Cmp, i: nat): nat
    requires i < |keys|
  {
    if keys[i].Ok? then Rank(cmp, keys[i].value) else 3
  }

  ghost predicate AllBelow(keys: seq<Result<Bytes>>, cmp: Cmp, hi: nat) {
    hi <= |keys| && forall i :: 0 < i < hi ==> RankAt(keys, cmp, i) == 0
  }

  ghost predicate AllAbove(keys: seq<Result<Bytes>>, cmp: Cmp, lo: nat) {
    forall i :: 0 < i && lo <= i < |keys| ==> RankAt(keys, cmp, i) == 2
  }

  /** What one probe settles. */
  lemma Probe(keys: seq<Result<Bytes>>, cmp: Cmp, mid: nat)
    requires RisesBehind(keys, cmp) && 0 < mid < |keys|
    ensures RankAt(keys, cmp, mid) == 0 ==> AllBelow(keys, cmp, mid + 1)
    ensures RankAt(keys, cmp, mid) > 0 ==> AllAbove(keys, cmp, mid + 1)
  {
    hide Rank;
    if RankAt(keys, cmp, mid) == 0 {
      assert forall i :: 0 < i < mid ==> RankAt(keys, cmp, i) == 0 || RankAt(keys, cmp, mid) == 2;
    }
  }

  /** The search of an inner node, its first key left out of account: the last separator not above the
      target, or the first child. */
  lemma {:induction false} SearchPicks(keys: seq<Result<Bytes>>, cmp: Cmp, lo: nat, hi: nat)
    requires lo <= hi <= |keys| && |keys| > 0
    requires RisesBehind(keys, cmp) && AllBelow(keys, cmp, lo) && AllAbove(keys, cmp, hi)
    ensures SearchRange(keys, cmp, lo, hi).Ok?
    ensures var idx := DescentIndex(SearchRange(keys, cmp, lo, hi).value);
            idx < |keys| && (idx > 0 ==> RankAt(keys, cmp, idx) <= 1) && AllAbove(keys, cmp, idx + 1)
    decreases hi - lo
  {
    if lo < hi {
      var mid := (lo + hi) / 2;
      if mid > 0 {
        Probe(keys, cmp, mid);
      }
      match cmp(keys[mid].value).value
      case Less => SearchPicks(keys, cmp, mid + 1, hi);
      case Greater => SearchPicks(keys, cmp, lo, mid);
      case Equal =>
    }
  }

  ghost predicate Picks(t: Tree, oid: nat, xid: nat, idx: nat) {
    t.Inner? && idx < |t.kids| == |t.seps| && (idx > 0 ==> Rank(OmapCmp(oid, xid), t.seps[idx]) <= 1) &&
    forall i :: idx < i < |t.seps| ==> Rank(OmapCmp(oid, xid), t.seps[i]) == 2
  }

  lemma PickedKid(src: Source, node: Node, t: Tree, oid: nat, xid: nat) returns (idx: nat)
    requires t.Inner? && Denotes(src, node, t) && KeyedInside(t) && SepsRise(t)
    ensures Picks(t, oid, xid, idx)
    ensures var p := SearchRange(node.keys, OmapCmp(oid, xid), 0, |node.keys|); p.Ok? && DescentIndex(p.value) == idx
  {
    hide Field, OmapCmp;
    var cmp, keys := OmapCmp(oid, xid), node.keys;
    forall i | 0 <= i < |keys|
      ensures keys[i] == Ok(t.seps[i]) && cmp(t.seps[i]).Ok?
    {
      RankIs(SepEntry(t.seps[i]), oid, xid);
    }
    forall i, j | 0 < i < j < |keys|
      ensures RankAt(keys, cmp, i) == 0 || RankAt(keys, cmp, j) == 2
    {
      RisingRanks(SepEntry(t.seps[i]), SepEntry(t.seps[j]), oid, xid);
    }
    SearchPicks(keys, cmp, 0, |keys|);
    idx := DescentIndex(SearchRange(keys, cmp, 0, |keys|).value);
    forall i | idx < i < |t.seps|
      ensures Rank(cmp, t.seps[i]) == 2
    {
      assert RankAt(keys, cmp, i) == 2;
    }
    assert RankAt(keys, cmp, idx) == Rank(cmp, t.seps[idx]);
  }

  lemma RisingRanks(a: Entry, b: Entry, oid: nat, xid: nat)
    requires Keyed(a) && Keyed(b) && Earlier(a, b)
    ensures Rank(OmapCmp(oid, xid), a.key) == 0 || Rank(OmapCmp(oid, xid), b.key) == 2
  {
    hide Field, OmapCmp;
    RankIs(a, oid, xid);
    RankIs(b, oid, xid);
  }

  // ---------- a lookup from any node ----------

  /** Descend from `node` and search the leaf. */
  ghost function LookAt(src: Source, node: Node, oid: nat, xid: nat, depth: nat): Result<OmapEntry>
    requires depth <= MAX_DEPTH
  {
    var leaf :- Descend(src, node, OmapCmp(oid, xid), depth);
    LookupInLeaf(leaf, oid, xid)
  }

  lemma LookAtKid(src: Source, node: Node, t: Tree, oid: nat, xid: nat, depth: nat, idx: nat)
    requires depth <= MAX_DEPTH && t.Inner? && Levels(t, MAX_DEPTH + 1 - depth) && Denotes(src, node, t) && idx < |t.kids|
    requires var p := SearchRange(node.keys, OmapCmp(oid, xid), 0, |node.keys|); p.Ok? && DescentIndex(p.value) == idx
    ensures depth < MAX_DEPTH && Levels(t.kids[idx], MAX_DEPTH - depth)
    ensures Child(src, node, idx).Ok? && Denotes(src, Child(src, node, idx).value, t.kids[idx])
    ensures Descend(src, node, OmapCmp(oid, xid), depth) == Descend(src, Child(src, node, idx).value, OmapCmp(oid, xid), depth + 1)
    ensures LookAt(src, node, oid, xid, depth) == LookAt(src, Child(src, node, idx).value, oid, xid, depth + 1)
  {
    hide OmapCmp, LookupInLeaf;
    assert Levels(t.kids[idx], MAX_DEPTH - depth);
  }

  // ---------- fitting separators suffice ----------

  lemma {:induction false} LatestAppend(a: seq<Entry>, b: seq<Entry>, oid: nat, xid: nat)
    ensures Latest(a + b, oid, xid) == if Latest(b, oid, xid).Some? then Latest(b, oid, xid) else Latest(a, oid, xid)
    decreases |b|
  {
    if |b| == 0 {
      assert a + b == a;
    } else {
      var n := |b| - 1;
      assert (a + b)[..|a + b| - 1] == a + b[..n];
      LatestAppend(a, b[..n], oid, xid);
    }
  }

  lemma {:induction false} LatestSome(es: seq<Entry>, oid: nat, xid: nat)
    ensures Latest(es, oid, xid).Some? ==> Latest(es, oid, xid).value in es && Covers(Latest(es, oid, xid).value, oid, xid)
    ensures Latest(es, oid, xid).None? ==> forall e :: e in es ==> !Covers(e, oid, xid)
  {
    hide Field;
    if |es| > 0 {
      LatestSome(es[..|es| - 1], oid, xid);
      assert es == es[..|es| - 1] + [es[|es| - 1]];
    }
  }

  lemma {:induction false} InTo(kids: seq<Tree>, n: nat, e: Entry) returns (i: nat)
    requires n <= |kids| && e in FlattenTo(kids, n)
    ensures i < n && e in Flatten(kids[i])
  {
    if e in Flatten(kids[n - 1]) {
      i := n - 1;
    } else {
      i := InTo(kids, n - 1, e);
    }
  }

  lemma {:induction false} InFrom(kids: seq<Tree>, n: nat, e: Entry) returns (i: nat)
    requires n <= |kids| && e in FlattenFrom(kids, n)
    ensures n <= i < |kids| && e in Flatten(kids[i])
    decreases |kids| - n
  {
    if e in Flatten(kids[n]) {
      i := n;
    } else {
      i := InFrom(kids, n + 1, e);
    }
  }

  /** No entry behind the picked child is visible to the target. */
  lemma NothingBehind(t: Tree, oid: nat, xid: nat, idx: nat)
    requires t.Inner? && Versions(Flatten(t)) && Navigable(t) && Picks(t, oid, xid, idx)
    ensures Latest(FlattenFrom(t.kids, idx + 1), oid, xid) == None
  {
    hide Field, Versions, OmapCmp, Flatten, FlattenFrom, Covers, Navigable;
    forall e | e in FlattenFrom(t.kids, idx + 1)
      ensures !Covers(e, oid, xid)
    {
      var i := InFrom(t.kids, idx + 1, e);
      BehindIsAbove(t, oid, xid, i, e);
    }
    LatestNone(FlattenFrom(t.kids, idx + 1), oid, xid);
  }

  lemma BehindIsAbove(t: Tree, oid: nat, xid: nat, i: nat, e: Entry)
    requires t.Inner? && Versions(Flatten(t)) && Navigable(t) && 0 < i < |t.kids| && e in Flatten(t.kids[i])
    requires Rank(OmapCmp(oid, xid), t.seps[i]) == 2
    ensures !Covers(e, oid, xid) && Keyed(e) && Rank(OmapCmp(oid, xid), e.key) == 2
  {
    hide Field, Versions, OmapCmp;
    assert KidFits(t, i);
    KidVersions(t, i);
    Ends(Flatten(t.kids[i]), e);
    RankIs(SepEntry(t.seps[i]), oid, xid);
    RankIs(e, oid, xid);
  }

  /** If no entry of the picked child is visible to the target, none before it is. */
  lemma NothingBefore(t: Tree, oid: nat, xid: nat, idx: nat)
    requires t.Inner? && Versions(Flatten(t)) && Navigable(t) && Picks(t, oid, xid, idx)
    requires Latest(Flatten(t.kids[idx]), oid, xid) == None
    ensures Latest(FlattenTo(t.kids, idx), oid, xid) == None
  {
    hide Field, Versions, OmapCmp, Flatten, FlattenTo, Covers, Navigable, Picks;
    PickInRange(t, oid, xid, idx);
    forall e | e in FlattenTo(t.kids, idx)
      ensures !Covers(e, oid, xid)
    {
      var i := InTo(t.kids, idx, e);
      BeforeIsHidden(t, oid, xid, idx, i, e);
    }
    LatestNone(FlattenTo(t.kids, idx), oid, xid);
  }

  lemma BeforeIsHidden(t: Tree, oid: nat, xid: nat, idx: nat, i: nat, e: Entry)
    requires t.Inner? && Versions(Flatten(t)) && Navigable(t) && Picks(t, oid, xid, idx)
    requires i < idx && e in Flatten(t.kids[i]) && Latest(Flatten(t.kids[idx]), oid, xid) == None
    ensures !Covers(e, oid, xid)
  {
    hide Field, Versions, OmapCmp, Latest;
    assert KidFits(t, idx);
    var p, m := Last(Flatten(t.kids[idx - 1])), First(Flatten(t.kids[idx]));
    if i < idx - 1 {
      AcrossKids(t, i, idx - 1, e, p);
    } else {
      KidVersions(t, i);
      Ends(Flatten(t.kids[i]), e);
    }
    RankIs(SepEntry(t.seps[idx]), oid, xid);
    LatestSome(Flatten(t.kids[idx]), oid, xid);
    assert m in Flatten(t.kids[idx]) && !Covers(m, oid, xid);
  }

  /** What a target sees in the whole it sees in the picked child. */
  lemma SeenInKid(t: Tree, oid: nat, xid: nat, idx: nat)
    requires t.Inner? && Versions(Flatten(t)) && Navigable(t) && Picks(t, oid, xid, idx)
    ensures Latest(Flatten(t), oid, xid) == Latest(Flatten(t.kids[idx]), oid, xid)
  {
    hide Versions, Picks, Navigable, Latest;
    PickInRange(t, oid, xid, idx);
    var a, b, c := FlattenTo(t.kids, idx), Flatten(t.kids[idx]), FlattenFrom(t.kids, idx + 1);
    KidAt(t.kids, idx);
    NothingBehind(t, oid, xid, idx);
    LatestAppend(a + b, c, oid, xid);
    LatestAppend(a, b, oid, xid);
    if Latest(b, oid, xid).None? {
      NothingBefore(t, oid, xid, idx);
    }
  }

  lemma {:induction false} LooksRight(src: Source, node: Node, t: Tree, oid: nat, xid: nat, depth: nat)
    requires depth <= MAX_DEPTH && Levels(t, MAX_DEPTH + 1 - depth) && Denotes(src, node, t)
    requires Versions(Flatten(t)) && Navigable(t)
    ensures LookAt(src, node, oid, xid, depth) == Resolve(Flatten(t), oid, xid)
    decreases t
  {
    hide Levels, Denotes, Versions, Flatten, LookupInLeaf, Latest, Picks, DecodeMapping;
    if t.Leaf? {
      LeafIsRight(src, node, t, oid, xid, depth);
    } else {
      FittingRises(t);
      var idx := PickedKid(src, node, t, oid, xid);
      assert idx < |t.kids| by { PickInRange(t, oid, xid, idx); }
      LookAtKid(src, node, t, oid, xid, depth, idx);
      KidVersions(t, idx);
      LooksRight(src, Child(src, node, idx).value, t.kids[idx], oid, xid, depth + 1);
      SeenInKid(t, oid, xid, idx);
    }
  }

  lemma PickInRange(t: Tree, oid: nat, xid: nat, idx: nat)
    requires Picks(t, oid, xid, idx)
    ensures t.Inner? && idx < |t.kids|
  {
  }

  lemma LeafIsRight(src: Source, node: Node, t: Tree, oid: nat, xid: nat, depth: nat)
    requires depth <= MAX_DEPTH && t.Leaf? && Denotes(src, node, t) && Versions(Flatten(t))
    ensures LookAt(src, node, oid, xid, depth) == Resolve(Flatten(t), oid, xid)
  {
    hide LookupInLeaf, DecodeMapping, OmapCmp, Versions, Resolve;
    assert t.entries == [] + t.entries + [];
    LeafAnswers(node, src, t.entries, [], t.entries, [], oid, xid);
  }

  lemma {:induction false} NavigableRises(t: Tree)
    requires Versions(Flatten(t)) && Navigable(t)
    ensures SepsRiseInside(t)
    decreases t
  {
    hide Versions, Flatten, KidFits, SepsRise;
    if t.Inner? {
      FittingRises(t);
      forall i | 0 <= i < |t.kids|
        ensures SepsRiseInside(t.kids[i])
      {
        KidVersions(t, i);
        NavigableRises(t.kids[i]);
      }
    }
  }

  /** Where separators rise a descent always ends in a leaf, and every entry of that leaf is in the tree. */
  lemma {:induction false} DescentEnds(src: Source, node: Node, t: Tree, oid: nat, xid: nat, depth: nat) returns (es: seq<Entry>)
    requires depth <= MAX_DEPTH && Levels(t, MAX_DEPTH + 1 - depth) && Denotes(src, node, t)
    requires KeyedInside(t) && SepsRiseInside(t)
    ensures Descend(src, node, OmapCmp(oid, xid), depth).Ok?
    ensures Denotes(src, Descend(src, node, OmapCmp(oid, xid), depth).value, Leaf(es))
    ensures forall e :: e in es ==> e in Flatten(t)
    decreases t
  {
    hide Levels, Denotes, Flatten, OmapCmp, SepsRise;
    if t.Leaf? {
      es := t.entries;
      LeafEnds(src, node, t, oid, xid, depth);
    } else {
      var idx := PickedKid(src, node, t, oid, xid);
      LookAtKid(src, node, t, oid, xid, depth, idx);
      es := DescentEnds(src, Child(src, node, idx).value, t.kids[idx], oid, xid, depth + 1);
      KidEntries(t, idx);
    }
  }

  lemma LeafEnds(src: Source, node: Node, t: Tree, oid: nat, xid: nat, depth: nat)
    requires depth <= MAX_DEPTH && t.Leaf? && Denotes(src, node, t)
    ensures Descend(src, node, OmapCmp(oid, xid), depth) == Ok(node) && Flatten(t) == t.entries
    ensures Denotes(src, node, Leaf(t.entries))
  {
  }

  lemma KidEntries(t: Tree, i: nat)
    requires t.Inner? && i < |t.kids|
    ensures forall e :: e in Flatten(t.kids[i]) ==> e in Flatten(t)
  {
    KidAt(t.kids, i);
  }

  /** A lookup is a descent from the map's root. */
  lemma LookupIs(om: ObjectMap, t: Tree, oid: nat, xid: nat)
    requires Maps(om, t) && KeyedInside(t) && SepsRiseInside(t)
    ensures Lookup(om, oid, xid) == LookAt(MapSource(om), MapRoot(om), oid, xid, 0)
  {
    hide ParseNode, ParseTreeInfo, Present, Denotes, OmapSource, LookupInLeaf, Descend, VariableInside, Lookup, OmapCmp;
    var es := DescentEnds(MapSource(om), MapRoot(om), t, oid, xid, 0);
    LookupDescends(om, t, oid, xid);
  }

  /** A lookup answers what the map says: the greatest version at or before the target, a miss exactly
      when there is none or it is a ghost or deleted, wherever separators fit. */
  lemma LookupRefines(om: ObjectMap, t: Tree, oid: nat, xid: nat)
    requires Maps(om, t) && Navigable(t)
    ensures Lookup(om, oid, xid) == Resolve(Flatten(t), oid, xid)
  {
    hide ParseNode, ParseTreeInfo, Present, Denotes, OmapSource, LookAt, VariableInside, Lookup, Resolve, Versions;
    NavigableRises(t);
    LookupIs(om, t, oid, xid);
    LooksRight(MapSource(om), MapRoot(om), t, oid, xid, 0);
  }

  /** Separators that are their subtrees' smallest keys fit. */
  lemma {:induction false} ExactFits(t: Tree)
    requires Versions(Flatten(t)) && ExactSeps(t)
    ensures Navigable(t)
    decreases t
  {
    hide Field, Versions, Flatten;
    if t.Inner? {
      forall i | 0 <= i < |t.kids|
        ensures Navigable(t.kids[i]) && Keyed(SepEntry(t.seps[i]))
      {
        KidVersions(t, i);
        ExactFits(t.kids[i]);
        Ends(Flatten(t.kids[i]), First(Flatten(t.kids[i])));
      }
      forall i | 0 < i < |t.kids|
        ensures KidFits(t, i)
      {
        ExactKidFits(t, i);
      }
    }
  }

  lemma ExactKidFits(t: Tree, i: nat)
    requires t.Inner? && Versions(Flatten(t)) && ExactSeps(t) && 0 < i < |t.kids|
    ensures KidFits(t, i)
  {
    hide Field, Versions, Flatten;
    var p, m := Last(Flatten(t.kids[i - 1])), First(Flatten(t.kids[i]));
    AcrossKids(t, i - 1, i, p, m);
    assert SepEntry(t.seps[i]).key == m.key;
  }

  // ---------- and are needed ----------

  /** Every entry maps its oid: a whole value, not marked deleted. */
  ghost predicate Live(es: seq<Entry>) {
    forall e :: e in es ==> e.val.Some? && |e.val.value| >= 16 && Field(e.val.value, 0, 4) % 2 == 0
  }

  lemma LiveResolves(es: seq<Entry>, oid: nat, xid: nat)
    requires Live(es) && Latest(es, oid, xid).Some?
    ensures var e := Latest(es, oid, xid).value;
            && Keyed(e) && e in es && Oid(e) == oid
            && Resolve(es, oid, xid).Ok? && Resolve(es, oid, xid).value.oid == Oid(e) && Resolve(es, oid, xid).value.xid == Xid(e)
  {
    hide Field;
    LatestSome(es, oid, xid);
  }

  /** A leaf answers with the oid and xid of one of its own entries. */
  lemma LeafAnswerIsOwn(src: Source, leaf: Node, es: seq<Entry>, oid: nat, xid: nat)
    requires Denotes(src, leaf, Leaf(es)) && LookupInLeaf(leaf, oid, xid).Ok?
    ensures exists e :: e in es && Keyed(e) && Oid(e) == LookupInLeaf(leaf, oid, xid).value.oid &&
                        Xid(e) == LookupInLeaf(leaf, oid, xid).value.xid
  {
    hide Field, OmapCmp, SearchRange;
    var idx := DescentIndex(SearchRange(leaf.keys, OmapCmp(oid, xid), 0, |leaf.keys|).value);
    var e := es[idx];
    assert leaf.keys[idx] == Ok(e.key) && e in es;
  }

  /** When the visible version lies in another child than the picked one, the lookup is wrong. */
  lemma ElsewhereIsWrong(src: Source, node: Node, t: Tree, oid: nat, xid: nat, depth: nat, idx: nat, j: nat, e: Entry)
    requires depth <= MAX_DEPTH && Levels(t, MAX_DEPTH + 1 - depth) && Denotes(src, node, t) && t.Inner?
    requires Versions(Flatten(t)) && Live(Flatten(t)) && KeyedInside(t) && SepsRiseInside(t)
    requires Latest(Flatten(t), oid, xid) == Some(e) && j < |t.kids| && e in Flatten(t.kids[j])
    requires idx < |t.kids| && idx != j
    requires var p := SearchRange(node.keys, OmapCmp(oid, xid), 0, |node.keys|); p.Ok? && DescentIndex(p.value) == idx
    ensures LookAt(src, node, oid, xid, depth) != Resolve(Flatten(t), oid, xid)
  {
    hide Levels, Denotes, Versions, Flatten, LookupInLeaf, Latest, OmapCmp, Resolve, SearchRange, Live, SepsRise, Descend;
    LookAtKid(src, node, t, oid, xid, depth, idx);
    var child := Child(src, node, idx).value;
    var es := DescentEnds(src, child, t.kids[idx], oid, xid, depth + 1);
    var leaf := Descend(src, child, OmapCmp(oid, xid), depth + 1).value;
    LiveResolves(Flatten(t), oid, xid);
    if LookupInLeaf(leaf, oid, xid).Ok? {
      LeafAnswerIsOwn(src, leaf, es, oid, xid);
      var f :| f in es && Keyed(f) && Oid(f) == LookupInLeaf(leaf, oid, xid).value.oid && Xid(f) == LookupInLeaf(leaf, oid, xid).value.xid;
      if j < idx {
        AcrossKids(t, j, idx, e, f);
      } else {
        AcrossKids(t, idx, j, f, e);
      }
    }
  }

  /** A target the map answers, no later than the tree's last entry. */
  ghost predicate Inside(t: Tree, oid: nat, xid: nat) {
    Flatten(t) != [] && Latest(Flatten(t), oid, xid).Some? &&
    Keyed(Last(Flatten(t))) && Rank(OmapCmp(oid, xid), Last(Flatten(t)).key) >= 1
  }

  /** The entries visible to a target that is one of them, or that lies just behind one of its oid. */
  lemma SeenAt(es: seq<Entry>, k: nat, oid: nat, xid: nat)
    requires Versions(es) && k < |es| && Oid(es[k]) == oid && Xid(es[k]) <= xid
    requires k + 1 < |es| ==> Rank(OmapCmp(oid, xid), es[k + 1].key) == 2
    ensures Latest(es, oid, xid) == Some(es[k])
  {
    hide Field, Latest, OmapCmp;
    assert es[k] in es;
    RankIs(es[k], oid, xid);
    forall i | k < i < |es|
      ensures Rank(OmapCmp(oid, xid), es[i].key) == 2
    {
      assert es[i] in es && es[k + 1] in es;
      InVersions(es, k + 1, i);
      RankIs(es[i], oid, xid);
      RankIs(es[k + 1], oid, xid);
    }
    LatestAt(es, k, oid, xid);
  }

  /** A target an entry itself names. */
  lemma NamesItself(es: seq<Entry>, e: Entry)
    requires Versions(es) && e in es
    ensures Keyed(e) && Latest(es, Oid(e), Xid(e)) == Some(e)
    ensures Keyed(Last(es)) && Rank(OmapCmp(Oid(e), Xid(e)), Last(es).key) >= 1
  {
    hide Field, Latest, OmapCmp;
    var k :| 0 <= k < |es| && es[k] == e;
    if k + 1 < |es| {
      InVersions(es, k, k + 1);
      RankIs(es[k + 1], Oid(e), Xid(e));
    }
    SeenAt(es, k, Oid(e), Xid(e));
    Ends(es, e);
    RankIs(Last(es), Oid(e), Xid(e));
  }

  lemma ByRank(e: Entry, oid: nat, xid: nat, q: Entry)
    requires Keyed(e) && Keyed(q) && Oid(q) == oid && Xid(q) == xid
    ensures Rank(OmapCmp(oid, xid), e.key) == 0 <==> Earlier(e, q)
    ensures Rank(OmapCmp(oid, xid), e.key) == 2 <==> Earlier(q, e)
    ensures Rank(OmapCmp(oid, xid), e.key) <= 2
  {
    hide Field, OmapCmp;
    RankIs(e, oid, xid);
  }

  /** The picked child, by the order of separators and the target read as an entry. */
  lemma PickedBy(t: Tree, idx: nat, i: nat, q: Entry)
    requires KeyedInside(t) && SepsRise(t) && Keyed(q) && Picks(t, Oid(q), Xid(q), idx) && 0 < i < |t.seps|
    ensures !Earlier(q, SepEntry(t.seps[i])) ==> i <= idx
    ensures Earlier(q, SepEntry(t.seps[i])) ==> idx < i
  {
    hide Field, OmapCmp;
    ByRank(SepEntry(t.seps[i]), Oid(q), Xid(q), q);
    if idx > 0 {
      ByRank(SepEntry(t.seps[idx]), Oid(q), Xid(q), q);
      if i < idx {
        EarlierTransitive(q, SepEntry(t.seps[i]), SepEntry(t.seps[idx]));
      }
    }
  }

  /** Positions of the last entry of one child and the first of the next. */
  lemma Neighbours(t: Tree, i: nat) returns (k: nat)
    requires t.Inner? && KeyedInside(t) && 0 < i < |t.kids|
    ensures k + 1 < |Flatten(t)|
    ensures Flatten(t)[k] == Last(Flatten(t.kids[i - 1])) && Flatten(t)[k + 1] == First(Flatten(t.kids[i]))
  {
    k := |FlattenTo(t.kids, i)| - 1;
    KidPosition(t, i - 1, |Flatten(t.kids[i - 1])| - 1);
    KidPosition(t, i, 0);
  }

  /** The three ways a separator fails to fit, and a target each makes the lookup wrong for. */
  lemma MisfitIsWrong(src: Source, node: Node, t: Tree, depth: nat, i: nat) returns (oid: nat, xid: nat)
    requires depth <= MAX_DEPTH && Levels(t, MAX_DEPTH + 1 - depth) && Denotes(src, node, t) && t.Inner?
    requires Versions(Flatten(t)) && Live(Flatten(t)) && KeyedInside(t) && SepsRiseInside(t)
    requires 0 < i < |t.kids| && !KidFits(t, i)
    ensures Inside(t, oid, xid) && LookAt(src, node, oid, xid, depth) != Resolve(Flatten(t), oid, xid)
  {
    hide Levels, Denotes, Versions, Flatten, Latest, OmapCmp, Resolve, Live, LookAt, Field, Earlier, SepsRise, Picks;
    var p, m, s := Last(Flatten(t.kids[i - 1])), First(Flatten(t.kids[i])), SepEntry(t.seps[i]);
    AcrossKids(t, i - 1, i, p, m);
    var q, j := Misfit(t, i);
    oid, xid := Oid(q), Xid(q);
    var idx := PickedKid(src, node, t, oid, xid);
    PickInRange(t, oid, xid, idx);
    PickedBy(t, idx, i, q);
    ElsewhereIsWrong(src, node, t, oid, xid, depth, idx, j, if j < i then p else m);
  }

  /** A target that sees the last entry before a misfit, or the first behind it, and is sent to the other side. */
  lemma Misfit(t: Tree, i: nat) returns (q: Entry, j: nat)
    requires t.Inner? && Versions(Flatten(t)) && KeyedInside(t) && 0 < i < |t.kids| && !KidFits(t, i)
    ensures Keyed(q) && Inside(t, Oid(q), Xid(q)) && (j == i - 1 || j == i)
    ensures j < i ==> Latest(Flatten(t), Oid(q), Xid(q)) == Some(Last(Flatten(t.kids[i - 1]))) && !Earlier(q, SepEntry(t.seps[i]))
    ensures j == i ==> Latest(Flatten(t), Oid(q), Xid(q)) == Some(First(Flatten(t.kids[i]))) && Earlier(q, SepEntry(t.seps[i]))
  {
    hide Versions, Flatten, Latest, OmapCmp, Field;
    var p, m, s := Last(Flatten(t.kids[i - 1])), First(Flatten(t.kids[i])), SepEntry(t.seps[i]);
    AcrossKids(t, i - 1, i, p, m);
    KidEntries(t, i - 1);
    KidEntries(t, i);
    if !Earlier(p, s) {
      q, j := p, i - 1;
      NamesItself(Flatten(t), p);
    } else if Earlier(m, s) {
      q, j := m, i;
      NamesItself(Flatten(t), m);
    } else {
      q, j := s, i - 1;
      var k := Neighbours(t, i);
      ByRank(m, Oid(s), Xid(s), s);
      SeenAt(Flatten(t), k, Oid(s), Xid(s));
      Ends(Flatten(t), m);
      EarlierTransitive(s, m, Last(Flatten(t)));
      ByRank(Last(Flatten(t)), Oid(s), Xid(s), s);
    }
  }

  /** A target inside a child is sent there, and sees in the whole what it sees in the child. */
  lemma SentHome(t: Tree, oid: nat, xid: nat, idx: nat, i: nat)
    requires t.Inner? && Versions(Flatten(t)) && KeyedInside(t) && SepsRise(t) && i < |t.kids|
    requires forall k :: 0 < k < |t.kids| ==> KidFits(t, k)
    requires Inside(t.kids[i], oid, xid) && Picks(t, oid, xid, idx)
    ensures idx == i && Latest(Flatten(t), oid, xid) == Latest(Flatten(t.kids[i]), oid, xid) && Inside(t, oid, xid)
  {
    hide Versions, Flatten, Latest, OmapCmp, Field, Picks, Earlier;
    var es := Flatten(t.kids[i]);
    KidVersions(t, i);
    LatestSome(es, oid, xid);
    var e := Latest(es, oid, xid).value;
    Ends(es, e);
    NotBefore(t, oid, xid, idx, i, e);
    NotAfter(t, oid, xid, idx, i);
    SeenWithin(t, oid, xid, i);
    KidEntries(t, i);
    Ends(Flatten(t), Last(es));
    LaterRank(Last(es), Last(Flatten(t)), oid, xid);
  }

  lemma LaterRank(a: Entry, b: Entry, oid: nat, xid: nat)
    requires Keyed(a) && Keyed(b) && !Earlier(b, a) && Rank(OmapCmp(oid, xid), a.key) >= 1
    ensures Rank(OmapCmp(oid, xid), b.key) >= 1
  {
    hide Field, OmapCmp;
    RankIs(a, oid, xid);
    RankIs(b, oid, xid);
  }

  lemma NotBefore(t: Tree, oid: nat, xid: nat, idx: nat, i: nat, e: Entry)
    requires t.Inner? && KeyedInside(t) && i < |t.kids| && Picks(t, oid, xid, idx)
    requires i > 0 ==> KidFits(t, i)
    requires Keyed(e) && Covers(e, oid, xid) && Flatten(t.kids[i]) != [] && Keyed(First(Flatten(t.kids[i])))
    requires !Earlier(e, First(Flatten(t.kids[i])))
    ensures i <= idx
  {
    hide Flatten, OmapCmp, Field;
    if idx < i {
      RankIs(SepEntry(t.seps[i]), oid, xid);
    }
  }

  lemma NotAfter(t: Tree, oid: nat, xid: nat, idx: nat, i: nat)
    requires t.Inner? && Versions(Flatten(t)) && KeyedInside(t) && i < |t.kids| && Picks(t, oid, xid, idx)
    requires forall k :: 0 < k < |t.kids| ==> KidFits(t, k)
    requires Inside(t.kids[i], oid, xid)
    ensures idx <= i
  {
    hide Versions, Flatten, Latest, OmapCmp, Field;
    if i < idx {
      assert KidFits(t, idx);
      var l, p := Last(Flatten(t.kids[i])), Last(Flatten(t.kids[idx - 1]));
      if i < idx - 1 {
        AcrossKids(t, i, idx - 1, l, p);
      }
      RankIs(l, oid, xid);
      RankIs(SepEntry(t.seps[idx]), oid, xid);
    }
  }

  lemma SeenWithin(t: Tree, oid: nat, xid: nat, i: nat)
    requires t.Inner? && Versions(Flatten(t)) && i < |t.kids| && Inside(t.kids[i], oid, xid)
    ensures Latest(Flatten(t), oid, xid) == Latest(Flatten(t.kids[i]), oid, xid)
  {
    hide Versions, Latest, OmapCmp, Field, Flatten, FlattenFrom, FlattenTo;
    var a, b, c := FlattenTo(t.kids, i), Flatten(t.kids[i]), FlattenFrom(t.kids, i + 1);
    KidAt(t.kids, i);
    Whole(t);
    forall e | e in c
      ensures !Covers(e, oid, xid)
    {
      var j := InFrom(t.kids, i + 1, e);
      AcrossKids(t, i, j, Last(b), e);
      RankIs(Last(b), oid, xid);
    }
    LatestNone(c, oid, xid);
    LatestAppend(a + b, c, oid, xid);
    LatestAppend(a, b, oid, xid);
  }

  lemma Whole(t: Tree)
    requires t.Inner?
    ensures Flatten(t) == FlattenFrom(t.kids, 0)
  {
  }

  /** Somewhere a separator that does not fit: some lookup is wrong. */
  lemma {:induction false} WrongSomewhere(src: Source, node: Node, t: Tree, depth: nat) returns (oid: nat, xid: nat)
    requires depth <= MAX_DEPTH && Levels(t, MAX_DEPTH + 1 - depth) && Denotes(src, node, t)
    requires Versions(Flatten(t)) && Live(Flatten(t)) && KeyedInside(t) && SepsRiseInside(t) && !Separated(t)
    ensures Inside(t, oid, xid) && LookAt(src, node, oid, xid, depth) != Resolve(Flatten(t), oid, xid)
    decreases t
  {
    hide Levels, Denotes, Versions, Flatten, Latest, OmapCmp, Live, LookAt, Field, KidFits, SepsRise, Inside, Picks, DecodeMapping;
    if i :| 0 < i < |t.kids| && !KidFits(t, i) {
      oid, xid := MisfitIsWrong(src, node, t, depth, i);
    } else {
      var i :| 0 <= i < |t.kids| && !Separated(t.kids[i]);
      KidVersions(t, i);
      LiveKid(t, i);
      KidDenoted(src, node, t, i, depth);
      oid, xid := WrongSomewhere(src, Child(src, node, i).value, t.kids[i], depth + 1);
      var idx := PickedKid(src, node, t, oid, xid);
      SentHome(t, oid, xid, idx, i);
      LookAtKid(src, node, t, oid, xid, depth, idx);
    }
  }

  lemma LiveKid(t: Tree, i: nat)
    requires t.Inner? && Live(Flatten(t)) && i < |t.kids|
    ensures Live(Flatten(t.kids[i]))
  {
    hide Field;
    KidEntries(t, i);
  }

  lemma KidDenoted(src: Source, node: Node, t: Tree, i: nat, depth: nat)
    requires depth <= MAX_DEPTH && t.Inner? && Levels(t, MAX_DEPTH + 1 - depth) && Denotes(src, node, t) && i < |t.kids|
    ensures depth < MAX_DEPTH && Levels(t.kids[i], MAX_DEPTH - depth)
    ensures Child(src, node, i).Ok? && Denotes(src, Child(src, node, i).value, t.kids[i])
  {
    assert Levels(t.kids[i], MAX_DEPTH - depth);
  }

  /** On a map of live values whose separators rise, no subtree empty, every lookup is right exactly when
      every separator fits. */
  lemma LookupsRightIffSeparated(om: ObjectMap, t: Tree)
    requires Maps(om, t) && KeyedInside(t) && SepsRiseInside(t) && Live(Flatten(t))
    ensures (forall oid, xid :: Lookup(om, oid, xid) == Resolve(Flatten(t), oid, xid)) <==> Separated(t)
  {
    hide Lookup, Resolve, VariableInside, Denotes, ParseNode, ParseTreeInfo, Present, OmapSource, Levels, Versions, LookAt, Live, Flatten, SepsRiseInside, KeyedInside, Separated;
    if Separated(t) {
      assert Navigable(t);
      forall oid, xid
        ensures Lookup(om, oid, xid) == Resolve(Flatten(t), oid, xid)
      {
        LookupRefines(om, t, oid, xid);
      }
    } else {
      var oid, xid := WrongSomewhere(MapSource(om), MapRoot(om), t, 0);
      LookupIs(om, t, oid, xid);
    }
  }

  /** One way to lose a mapping, in a root over two leaves: the second separator lies at or before the target
      while every entry under it lies after, and the version wanted ends the first leaf. */
  lemma LooseSeparatorMisses(om: ObjectMap, s0: Bytes, s1: Bytes, a: seq<Entry>, b: seq<Entry>, oid: nat, xid: nat)
    requires Maps(om, Inner([s0, s1], [Leaf(a), Leaf(b)]))
    requires Rank(OmapCmp(oid, xid), s0) == 0 && Rank(OmapCmp(oid, xid), s1) <= 1
    requires forall e :: e in b ==> Rank(OmapCmp(oid, xid), e.key) == 2
    requires a != [] && Covers(a[|a| - 1], oid, xid)
    ensures Lookup(om, oid, xid) == Err(OmapMiss(oid, xid))
    ensures Latest(Flatten(Inner([s0, s1], [Leaf(a), Leaf(b)])), oid, xid) == Some(a[|a| - 1])
  {
    var t := Inner([s0, s1], [Leaf(a), Leaf(b)]);
    FlattenPair(t, a, b);
    LastOfFirst(a, b, oid, xid);
    hide ParseNode, ParseTreeInfo, Present, OmapSource, LookupInLeaf, VariableInside, Lookup, Latest;
    var src, node := MapSource(om), MapRoot(om);
    assert node.keys[0] == Ok(s0) && node.keys[1] == Ok(s1);
    SecondOfTwo(node.keys, OmapCmp(oid, xid));
    var leaf := Child(src, node, 1).value;
    assert Denotes(src, leaf, Leaf(b));
    assert Descend(src, node, OmapCmp(oid, xid), 0) == Descend(src, leaf, OmapCmp(oid, xid), 1) == Ok(leaf);
    MissInLeaf(src, leaf, b, oid, xid);
    LookupDescends(om, t, oid, xid);
  }

  lemma SecondOfTwo(keys: seq<Result<Bytes>>, cmp: Cmp)
    requires |keys| == 2 && keys[0].Ok? && keys[1].Ok?
    requires Rank(cmp, keys[0].value) == 0 && Rank(cmp, keys[1].value) <= 1
    ensures SearchRange(keys, cmp, 0, 2).Ok? && DescentIndex(SearchRange(keys, cmp, 0, 2).value) == 1
  {
    assert (0 + 2) / 2 == 1;
    assert SearchRange(keys, cmp, 2, 2) == Ok(Before(Some(1)));
  }

  lemma LastOfFirst(a: seq<Entry>, b: seq<Entry>, oid: nat, xid: nat)
    requires Versions(a + b) && a != [] && Covers(a[|a| - 1], oid, xid)
    requires forall e :: e in b ==> Rank(OmapCmp(oid, xid), e.key) == 2
    ensures Latest(a + b, oid, xid) == Some(a[|a| - 1])
  {
    var k := |a| - 1;
    assert (a + b)[k] == a[k];
    assert forall i :: k < i < |a + b| ==> (a + b)[i] in b;
    LatestAt(a + b, k, oid, xid);
  }

  lemma MissInLeaf(src: Source, leaf: Node, b: seq<Entry>, oid: nat, xid: nat)
    requires Denotes(src, leaf, Leaf(b))
    requires forall e :: e in b ==> Rank(OmapCmp(oid, xid), e.key) == 2
    ensures LookupInLeaf(leaf, oid, xid) == Err(OmapMiss(oid, xid))
  {
    forall i | 0 <= i < |b|
      ensures leaf.keys[i].Ok? && OmapCmp(oid, xid)(leaf.keys[i].value) == Ok(Greater)
    {
      assert b[i] in b;
    }
    SearchIs(leaf.keys, OmapCmp(oid, xid), 0, |b|);
  }

  lemma FlattenPair(t: Tree, a: seq<Entry>, b: seq<Entry>)
    requires t.Inner? && t.kids == [Leaf(a), Leaf(b)]
    ensures Flatten(t) == a + b
  {
    assert FlattenFrom(t.kids, 2) == [];
    assert FlattenFrom(t.kids, 1) == b + [];
    assert FlattenFrom(t.kids, 0) == a + FlattenFrom(t.kids, 1);
    assert b + [] == b;
  }

  /** A root with fixed-size entries, children and no recorded key size cannot be searched at all. */
  lemma ZeroKeySizeFails(om: ObjectMap, root: NodeBlock, info: TreeInfo, oid: nat, xid: nat)
    requires om.load(om.treeOid).Ok? && ParseNode(om.load(om.treeOid).value) == Ok(root)
    requires ParseTreeInfo(root) == Ok(info) && info.keySize == 0
    requires !root.IsLeaf() && root.FixedKv() && root.nkeys > 0
    ensures Lookup(om, oid, xid).Err? && Lookup(om, oid, xid).error in {Parse, Corrupt}
  {
    var valSize := OrSixteen(info.valSize);
    var node := Present(root, 0, valSize);
    var mid := (0 + |node.keys|) / 2;
    assert node.keys[mid] == root.Key(mid, 0);
    assert node.keys[mid].Ok? ==> |node.keys[mid].value| == 0;
    assert SearchRange(node.keys, OmapCmp(oid, xid), 0, |node.keys|).Err?;
  }

  /** On the way down to `e` lies an inner node of fixed-size records. */
  ghost predicate UnderFixed(src: Source, node: Node, t: Tree, e: Entry)
    decreases t
  {
    t.Inner? &&
    (FixedView(node) ||
     exists i :: 0 <= i < |t.kids| && e in Flatten(t.kids[i]) && Child(src, node, i).Ok? &&
                 UnderFixed(src, Child(src, node, i).value, t.kids[i], e))
  }

  lemma {:induction false} FixedHidesEntry(src: Source, node: Node, t: Tree) returns (e: Entry)
    requires Denotes(src, node, t) && KeyedInside(t) && !VariableInside(src, node, t)
    ensures e in Flatten(t) && UnderFixed(src, node, t, e)
    decreases t
  {
    if FixedView(node) {
      KidAt(t.kids, 0);
      e := Flatten(t.kids[0])[0];
    } else {
      var i :| 0 <= i < |t.kids| && !VariableInside(src, Child(src, node, i).value, t.kids[i]);
      KidAt(t.kids, i);
      e := FixedHidesEntry(src, Child(src, node, i).value, t.kids[i]);
    }
  }

  ghost predicate BadRead<T>(r: Result<T>) {
    r == Err(Parse) || r == Err(Corrupt)
  }

  /** With no key size, the search of a fixed-size node fails at its first key. */
  lemma FixedSearchFails(nb: NodeBlock, valSize: nat, oid: nat, xid: nat)
    requires nb.FixedKv() && nb.nkeys > 0
    ensures BadRead(SearchRange(Present(nb, 0, valSize).keys, OmapCmp(oid, xid), 0, nb.nkeys))
  {
    hide Field;
    var mid := (0 + nb.nkeys) / 2;
    var keys := Present(nb, 0, valSize).keys;
    assert keys[mid] == nb.Key(mid, 0);
    assert BadRead(nb.TocEntry(mid)) || nb.TocEntry(mid).Ok?;
    assert keys[mid].Ok? ==> |keys[mid].value| == 0;
  }

  /** A descent for an entry's own key picks the child it lives in. */
  lemma HomeKid(t: Tree, idx: nat, i: nat, e: Entry)
    requires t.Inner? && Versions(Flatten(t)) && Navigable(t) && i < |t.kids| && e in Flatten(t.kids[i]) && Keyed(e)
    requires Picks(t, Oid(e), Xid(e), idx)
    ensures i == idx
  {
    hide Versions, Flatten, Latest, OmapCmp, Field, Picks;
    KidVersions(t, i);
    NamesItself(Flatten(t.kids[i]), e);
    FittingRises(t);
    SentHome(t, Oid(e), Xid(e), idx, i);
  }

  lemma {:induction false} DescentFails(load: Loader, a: Node, b: Node, valSize: nat, t: Tree, e: Entry, depth: nat)
    requires depth <= MAX_DEPTH && TwoViews(a, b, valSize) && Denotes(OmapSource(load, 16, valSize), b, t)
    requires Keyed(e) && e in Flatten(t) && Versions(Flatten(t)) && Navigable(t)
    requires UnderFixed(OmapSource(load, 16, valSize), b, t, e)
    ensures BadRead(Descend(OmapSource(load, 0, valSize), a, OmapCmp(Oid(e), Xid(e)), depth))
    decreases t
  {
    hide ParseNode, Present, OmapSource, SearchRange, OmapCmp, Versions, Flatten, Picks, SepsRise, KidFits;
    var cmp, src := OmapCmp(Oid(e), Xid(e)), OmapSource(load, 16, valSize);
    ViewBlocks(a, b, valSize);
    var nb := ParseNode(a.block).value;
    if depth < MAX_DEPTH && FixedView(b) {
      KeyCount(nb, valSize);
      FixedSearchFails(nb, valSize, Oid(e), Xid(e));
    } else if depth < MAX_DEPTH {
      var i :| 0 <= i < |t.kids| && e in Flatten(t.kids[i]) && Child(src, b, i).Ok? &&
               UnderFixed(src, Child(src, b, i).value, t.kids[i], e);
      SameView(nb, valSize);
      FittingRises(t);
      var idx := PickedKid(src, b, t, Oid(e), Xid(e));
      HomeKid(t, idx, i, e);
      KidVersions(t, i);
      ChildViews(load, a, b, valSize, idx);
      DescentFails(load, Child(OmapSource(load, 0, valSize), a, idx).value, Child(src, b, idx).value, valSize,
                   t.kids[idx], e, depth + 1);
    }
  }

  lemma KeyCount(nb: NodeBlock, valSize: nat)
    ensures |Present(nb, 0, valSize).keys| == nb.nkeys
  {
  }

  /** Every value is a ghost or long enough to decode. */
  ghost predicate WholeValues(es: seq<Entry>) {
    forall e :: e in es ==> e.val.None? || |e.val.value| >= 16
  }

  lemma ResolvesCleanly(es: seq<Entry>, oid: nat, xid: nat)
    requires Versions(es) && WholeValues(es)
    ensures !BadRead(Resolve(es, oid, xid))
  {
    hide Field;
    LatestIsGreatest(es, oid, xid);
  }

  /** On a map of whole values, every lookup is right exactly when a key size is recorded or no inner node
      holds fixed-size records. */
  lemma KeySizeNeeded(om: ObjectMap, t: Tree)
    requires Spells(om, t) && Navigable(t) && WholeValues(Flatten(t))
    ensures (forall oid, xid :: Lookup(om, oid, xid) == Resolve(Flatten(t), oid, xid)) <==> KeysSized(om, t)
  {
    hide Lookup, Resolve, VariableInside, Denotes, ParseNode, ParseTreeInfo, Present, OmapSource, Levels, Versions;
    if KeysSized(om, t) {
      forall oid, xid
        ensures Lookup(om, oid, xid) == Resolve(Flatten(t), oid, xid)
      {
        LookupRefines(om, t, oid, xid);
      }
    } else {
      var e := FixedHidesEntry(MapSource(om), MapRoot(om), t);
      LookupFails(om, t, e);
      ResolvesCleanly(Flatten(t), Oid(e), Xid(e));
    }
  }

  lemma LookupFails(om: ObjectMap, t: Tree, e: Entry)
    requires Spells(om, t) && Navigable(t) && !KeysSized(om, t)
    requires e in Flatten(t) && UnderFixed(MapSource(om), MapRoot(om), t, e)
    ensures Keyed(e) && BadRead(Lookup(om, Oid(e), Xid(e)))
  {
    hide VariableInside, Denotes, ParseNode, ParseTreeInfo, Present, OmapSource, Levels, Descend, LookupInLeaf, UnderFixed;
    var block := om.load(om.treeOid).value;
    var root := ParseNode(block).value;
    var valSize := OrSixteen(ParseTreeInfo(root).value.valSize);
    assert Keyed(e);
    ViewsOf(block, valSize);
    DescentFails(om.load, Present(root, 0, valSize), Present(root, 16, valSize), valSize, t, e, 0);
  }

  // ---------- snapshot isolation ----------

  /** The entries a reader at `xid` can see. */
  ghost function Visible(es: seq<Entry>, xid: nat): seq<Entry> {
    if |es| == 0 then []
    else
      var e := es[|es| - 1];
      Visible(es[..|es| - 1], xid) + if Keyed(e) && Xid(e) <= xid then [e] else []
  }

  lemma {:induction false} LatestOfVisible(es: seq<Entry>, oid: nat, xid: nat)
    ensures Latest(Visible(es, xid), oid, xid) == Latest(es, oid, xid)
  {
    if |es| > 0 {
      var n := |es| - 1;
      LatestOfVisible(es[..n], oid, xid);
      var v := Visible(es[..n], xid);
      if Keyed(es[n]) && Xid(es[n]) <= xid {
        assert (v + [es[n]])[..|v|] == v;
      } else {
        assert v + [] == v;
      }
    }
  }

  /** Two maps, of any shapes, that agree on every entry no newer than `xid` answer alike at `xid`:
      adding newer mappings never changes what a reader at `xid` resolves. */
  lemma SnapshotIsolation(om1: ObjectMap, t1: Tree, om2: ObjectMap, t2: Tree, oid: nat, xid: nat)
    requires Maps(om1, t1) && Navigable(t1) && Maps(om2, t2) && Navigable(t2)
    requires Visible(Flatten(t1), xid) == Visible(Flatten(t2), xid)
    ensures Lookup(om1, oid, xid) == Lookup(om2, oid, xid)
  {
    hide Lookup, Maps, Navigable, Flatten, DecodeMapping;
    LookupRefines(om1, t1, oid, xid);
    LookupRefines(om2, t2, oid, xid);
    LatestOfVisible(Flatten(t1), oid, xid);
    LatestOfVisible(Flatten(t2), oid, xid);
  }
}
