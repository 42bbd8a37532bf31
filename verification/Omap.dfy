/** The object map (`omap.rs`): versioned lookup of virtual object ids. */
module Omap {
  import opened Bytes
  import opened BTree
  import opened BTreeTheory
  import opened NodeCodec

  /** `BlockLoader::load_checked`: any partial function from block addresses to blocks. */
  type Loader = nat -> Result<Bytes>

  datatype OmapEntry = OmapEntry(oid: nat, xid: nat, flags: nat, size: nat, paddr: nat)

  datatype ObjectMap = ObjectMap(load: Loader, treeOid: nat)

  function OpenOmap(load: Loader, paddr: nat): Result<ObjectMap> {
    var block :- load(paddr);
    var obj :- ParseObjHeader(block);
    if BaseType(obj) != OBJECT_TYPE_OMAP then Err(Parse)
    else
      var treeOid :- ReadLE(block, OBJ_HDR_SIZE + 16, 8);
      Ok(ObjectMap(load, treeOid))
  }

  function CompareNats(a: nat, b: nat): Ordering {
    if a < b then Less else if a == b then Equal else Greater
  }

  /** Order of an entry's (oid, xid) against the target's. */
  function OmapCmp(oid: nat, xid: nat): Cmp {
    key =>
      var kOid :- ReadLE(key, 0, 8);
      var kXid :- ReadLE(key, 8, 8);
      Ok(if kOid != oid then CompareNats(kOid, oid) else CompareNats(kXid, xid))
  }

  /** Child pointers are physical block addresses. */
  function OmapSource(load: Loader, keySize: nat, valSize: nat): Source {
    ref =>
      var block :- load(ref);
      var nb :- ParseNode(block);
      Ok(Present(nb, keySize, valSize))
  }

  function OrSixteen(n: nat): nat {
    if n != 0 then n else 16
  }

  function DecodeMapping(oid: nat, xid: nat, e: Entry): Result<OmapEntry> {
    var kOid :- ReadLE(e.key, 0, 8);
    var kXid :- ReadLE(e.key, 8, 8);
    if kOid != oid || e.val.None? then Err(OmapMiss(oid, xid))
    else
      var flags :- ReadLE(e.val.value, 0, 4);
      var size :- ReadLE(e.val.value, 4, 4);
      var paddr :- ReadLE(e.val.value, 8, 8);
      if flags % 2 == 1 then Err(OmapMiss(oid, xid)) else Ok(OmapEntry(kOid, kXid, flags, size, paddr))
  }

  /** The search of the leaf a descent ended in. */
  function LookupInLeaf(leaf: Node, oid: nat, xid: nat): Result<OmapEntry> {
    var pos :- SearchRange(leaf.keys, OmapCmp(oid, xid), 0, |leaf.keys|);
    if pos == Before(None) then Err(OmapMiss(oid, xid))
    else
      var idx := DescentIndex(pos);
      if idx >= |leaf.keys| then Err(Corrupt)
      else
        var key :- leaf.keys[idx];
        var kOid :- ReadLE(key, 0, 8);
        var kXid :- ReadLE(key, 8, 8);
        if kOid != oid then Err(OmapMiss(oid, xid))
        else
          var val :- leaf.vals[idx];
          DecodeMapping(oid, xid, Entry(key, val))
  }

  /** `Omap::lookup`. Descent uses the tree's own key size; the leaf falls back to 16. (A value's size
      only matters in a leaf, so the source may as well use the fallback for it throughout.) */
  function Lookup(om: ObjectMap, oid: nat, xid: nat): Result<OmapEntry> {
    var block :- om.load(om.treeOid);
    var root :- ParseNode(block);
    var info :- ParseTreeInfo(root);
    var valSize := OrSixteen(info.valSize);
    var found :- Descend(OmapSource(om.load, info.keySize, valSize), Present(root, info.keySize, valSize), OmapCmp(oid, xid), 0);
    if info.keySize != 0 then LookupInLeaf(found, oid, xid)
    else
      var leaf :- ParseNode(found.block);
      LookupInLeaf(Present(leaf, 16, valSize), oid, xid)
  }

  /** `Omap::load_virtual`. */
  function LoadVirtual(om: ObjectMap, oid: nat, xid: nat): Result<Bytes> {
    var entry :- Lookup(om, oid, xid);
    if entry.flags / 16 % 2 == 1 then Err(Encrypted) else om.load(entry.paddr)
  }

  /** A mapping as `omap_key_t` and `omap_val_t` lay it out. */
  function EncodeMapping(m: OmapEntry): Entry {
    Entry(LE(m.oid, 8) + LE(m.xid, 8), Some(LE(m.flags, 4) + LE(m.size, 4) + LE(m.paddr, 8)))
  }

  /** Decoding gives every field of an encoded mapping back, unless it is marked deleted. */
  lemma MappingRoundTrip(m: OmapEntry, xid: nat)
    requires m.oid < U64 && m.xid < U64 && m.flags < U32 && m.size < U32 && m.paddr < U64
    ensures DecodeMapping(m.oid, xid, EncodeMapping(m)) == if m.flags % 2 == 1 then Err(OmapMiss(m.oid, xid)) else Ok(m)
  {
    hide ReadLE, LE;
    MappingKey(m.oid, m.xid);
    MappingValue(m.flags, m.size, m.paddr);
  }

  lemma MappingKey(oid: nat, xid: nat)
    requires oid < U64 && xid < U64
    ensures ReadLE(LE(oid, 8) + LE(xid, 8), 0, 8) == Ok(oid) && ReadLE(LE(oid, 8) + LE(xid, 8), 8, 8) == Ok(xid)
  {
    hide Field, LE;
    var a, b := LE(oid, 8), LE(xid, 8);
    assert a + b == [] + a + b && a + b == a + b + [];
    Field8At([], oid, b);
    Field8At(a, xid, []);
  }

  lemma MappingValue(flags: nat, size: nat, paddr: nat)
    requires flags < U32 && size < U32 && paddr < U64
    ensures var v := LE(flags, 4) + LE(size, 4) + LE(paddr, 8);
            ReadLE(v, 0, 4) == Ok(flags) && ReadLE(v, 4, 4) == Ok(size) && ReadLE(v, 8, 8) == Ok(paddr)
  {
    hide Field, LE, ReadLE;
    var a, b, c := LE(flags, 4), LE(size, 4), LE(paddr, 8);
    ReadFour([], flags, b + c);
    assert a + b + c == [] + a + (b + c);
    ReadFour(a, size, c);
    ReadLast(a + b, paddr);
  }

  lemma ReadFour(pre: Bytes, v: nat, post: Bytes)
    requires v < U32
    ensures ReadLE(pre + LE(v, 4) + post, |pre|, 4) == Ok(v)
  {
    hide Field, LE;
    Field4At(pre, v, post);
  }

  lemma ReadLast(pre: Bytes, v: nat)
    requires v < U64
    ensures ReadLE(pre + LE(v, 8), |pre|, 8) == Ok(v)
  {
    hide Field, LE;
    Field8At(pre, v, []);
    assert pre + LE(v, 8) + [] == pre + LE(v, 8);
  }

  // ---------- the map an object-map tree stands for ----------

  ghost predicate Keyed(e: Entry) {
    |e.key| >= 16
  }

  ghost function Oid(e: Entry): nat
    requires Keyed(e)
  {
    Field(e.key, 0, 8)
  }

  ghost function Xid(e: Entry): nat
    requires Keyed(e)
  {
    Field(e.key, 8, 8)
  }

  ghost predicate Earlier(a: Entry, b: Entry)
    requires Keyed(a) && Keyed(b)
  {
    Oid(a) < Oid(b) || (Oid(a) == Oid(b) && Xid(a) < Xid(b))
  }

  /** Entries ascend strictly by (oid, xid). */
  ghost predicate Versions(es: seq<Entry>) {
    (forall e :: e in es ==> Keyed(e)) &&
    forall i, j :: 0 <= i < j < |es| ==> Earlier(es[i], es[j])
  }

  ghost predicate Covers(e: Entry, oid: nat, xid: nat) {
    Keyed(e) && Oid(e) == oid && Xid(e) <= xid
  }

  /** The last version of `oid` no newer than `xid`. */
  ghost function Latest(es: seq<Entry>, oid: nat, xid: nat): Option<Entry> {
    if |es| == 0 then None
    else if Covers(es[|es| - 1], oid, xid) then Some(es[|es| - 1])
    else Latest(es[..|es| - 1], oid, xid)
  }

  /** What a lookup must answer: the mapping of the latest version, missing if there is none, if it
      is a ghost, or if it is marked deleted. */
  ghost function Resolve(es: seq<Entry>, oid: nat, xid: nat): Result<OmapEntry> {
    match Latest(es, oid, xid)
    case None => Err(OmapMiss(oid, xid))
    case Some(e) => DecodeMapping(oid, xid, e)
  }

  /** `Latest` is the version with the greatest xid among those at or before the target's. */
  lemma {:induction false} LatestIsGreatest(es: seq<Entry>, oid: nat, xid: nat)
    requires Versions(es)
    ensures match Latest(es, oid, xid)
            case None => forall e :: e in es ==> !Covers(e, oid, xid)
            case Some(e) => e in es && Covers(e, oid, xid) && forall f :: f in es && Covers(f, oid, xid) ==> Xid(f) <= Xid(e)
  {
    if |es| > 0 {
      var n := |es| - 1;
      VersionsPrefix(es, n);
      LatestIsGreatest(es[..n], oid, xid);
      assert es == es[..n] + [es[n]];
    }
  }

  lemma VersionsPrefix(es: seq<Entry>, n: nat)
    requires Versions(es) && n <= |es|
    ensures Versions(es[..n])
  {
    assert forall e :: e in es[..n] ==> e in es;
  }

  lemma {:induction false} LatestNone(es: seq<Entry>, oid: nat, xid: nat)
    requires forall e :: e in es ==> !Covers(e, oid, xid)
    ensures Latest(es, oid, xid) == None
  {
    if |es| > 0 {
      assert es[|es| - 1] in es;
      LatestNone(es[..|es| - 1], oid, xid);
    }
  }

  /** Between the last entry not above the target and the rest, only that entry can be the latest. */
  lemma {:induction false} LatestAt(es: seq<Entry>, k: nat, oid: nat, xid: nat)
    requires Versions(es) && k < |es|
    requires Rank(OmapCmp(oid, xid), es[k].key) <= 1
    requires forall i :: k < i < |es| ==> Rank(OmapCmp(oid, xid), es[i].key) == 2
    ensures Latest(es, oid, xid) == if Oid(es[k]) == oid then Some(es[k]) else None
  {
    var n := |es| - 1;
    assert es[n] in es;
    if n > k {
      VersionsPrefix(es, n);
      LatestAt(es[..n], k, oid, xid);
    } else if Oid(es[k]) != oid {
      forall e | e in es[..n]
        ensures !Covers(e, oid, xid)
      {
        var i :| 0 <= i < n && es[i] == e;
        assert Earlier(es[i], es[k]);
      }
      LatestNone(es[..n], oid, xid);
    }
  }

  lemma StrictVersions(es: seq<Entry>, oid: nat, xid: nat)
    requires Versions(es)
    ensures Strict(OmapCmp(oid, xid), es)
  {
    forall i, j | 0 <= i < j < |es|
      ensures Rank(OmapCmp(oid, xid), es[i].key) <= Rank(OmapCmp(oid, xid), es[j].key)
      ensures Rank(OmapCmp(oid, xid), es[i].key) != 1 || Rank(OmapCmp(oid, xid), es[j].key) != 1
    {
      assert es[i] in es && es[j] in es && Earlier(es[i], es[j]);
    }
  }

  /** The block of a node as the tree's source presents it holds fixed-size records. */
  ghost predicate FixedView(node: Node) {
    ParseNode(node.block).Ok? && ParseNode(node.block).value.FixedKv()
  }

  /** No inner node on the tree holds fixed-size records. */
  ghost predicate VariableInside(src: Source, node: Node, t: Tree)
    decreases t
  {
    t.Inner? ==>
      && !FixedView(node)
      && forall i :: 0 <= i < |t.kids| ==> Child(src, node, i).Ok? && VariableInside(src, Child(src, node, i).value, t.kids[i])
  }

  /** The map's tree, loaded through its loader with sizes of 16 where none are recorded, spells out `t`. */
  ghost predicate Spells(om: ObjectMap, t: Tree) {
    var block := om.load(om.treeOid);
    block.Ok? && ParseNode(block.value).Ok? && ParseTreeInfo(ParseNode(block.value).value).Ok?
    && Denotes(MapSource(om), MapRoot(om), t)
    && Levels(t, MAX_DEPTH + 1)
    && Versions(Flatten(t))
  }

  ghost function MapRoot(om: ObjectMap): Node
    requires om.load(om.treeOid).Ok? && ParseNode(om.load(om.treeOid).value).Ok?
    requires ParseTreeInfo(ParseNode(om.load(om.treeOid).value).value).Ok?
  {
    var root := ParseNode(om.load(om.treeOid).value).value;
    var info := ParseTreeInfo(root).value;
    Present(root, OrSixteen(info.keySize), OrSixteen(info.valSize))
  }

  ghost function MapSource(om: ObjectMap): Source
    requires om.load(om.treeOid).Ok? && ParseNode(om.load(om.treeOid).value).Ok?
    requires ParseTreeInfo(ParseNode(om.load(om.treeOid).value).value).Ok?
  {
    var info := ParseTreeInfo(ParseNode(om.load(om.treeOid).value).value).value;
    OmapSource(om.load, OrSixteen(info.keySize), OrSixteen(info.valSize))
  }

  /** The descent can read the separators: a key size is recorded, or no inner node needs one. */
  ghost predicate KeysSized(om: ObjectMap, t: Tree)
    requires Spells(om, t)
  {
    ParseTreeInfo(ParseNode(om.load(om.treeOid).value).value).value.keySize != 0 ||
    VariableInside(MapSource(om), MapRoot(om), t)
  }

  ghost predicate Maps(om: ObjectMap, t: Tree) {
    Spells(om, t) && KeysSized(om, t)
  }

  // ---------- descending without a recorded key size ----------

  /** Nodes of variable-size records read alike whatever the key size. */
  lemma SameView(nb: NodeBlock, valSize: nat)
    requires !nb.FixedKv()
    ensures Present(nb, 0, valSize) == Present(nb, 16, valSize)
  {
    assert forall i: nat :: nb.Key(i, 0) == nb.Key(i, 16);
  }

  /** One block presented with key sizes 0 and 16. */
  ghost predicate TwoViews(a: Node, b: Node, valSize: nat) {
    ParseNode(a.block).Ok? &&
    var nb := ParseNode(a.block).value;
    a == Present(nb, 0, valSize) && b == Present(nb, 16, valSize)
  }

  lemma ParsedBlock(block: Bytes)
    requires ParseNode(block).Ok?
    ensures ParseNode(block).value.block == block
  {
  }

  lemma ViewsOf(block: Bytes, valSize: nat)
    requires ParseNode(block).Ok?
    ensures var nb := ParseNode(block).value;
            TwoViews(Present(nb, 0, valSize), Present(nb, 16, valSize), valSize)
  {
    ParsedBlock(block);
  }

  /** Both views lead to the same children, each in two views. */
  lemma ChildViews(load: Loader, a: Node, b: Node, valSize: nat, i: nat)
    requires TwoViews(a, b, valSize)
    ensures var x, y := Child(OmapSource(load, 0, valSize), a, i), Child(OmapSource(load, 16, valSize), b, i);
            (x.Ok? <==> y.Ok?) && (x.Ok? ==> TwoViews(x.value, y.value, valSize)) && (x.Err? ==> x.error == y.error)
  {
    hide ParseNode, Field;
    var ref := ChildRef(ValueAt(a, i));
    if ref.Ok? && load(ref.value).Ok? && ParseNode(load(ref.value).value).Ok? {
      ViewsOf(load(ref.value).value, valSize);
    }
  }

  /** With variable-size inner nodes, a descent without a key size ends in the same leaf, seen with none. */
  lemma {:induction false} DescendsAlike(load: Loader, a: Node, b: Node, valSize: nat, cmp: Cmp, t: Tree, depth: nat)
    requires depth <= MAX_DEPTH && TwoViews(a, b, valSize)
    requires Denotes(OmapSource(load, 16, valSize), b, t) && VariableInside(OmapSource(load, 16, valSize), b, t)
    ensures var x, y := Descend(OmapSource(load, 0, valSize), a, cmp, depth), Descend(OmapSource(load, 16, valSize), b, cmp, depth);
            (x.Ok? <==> y.Ok?) && (y.Ok? ==> TwoViews(x.value, y.value, valSize))
    decreases t
  {
    hide ParseNode, Present, OmapSource, SearchRange;
    ViewBlocks(a, b, valSize);
    if t.Inner? && depth < MAX_DEPTH {
      SameView(ParseNode(a.block).value, valSize);
      var p := SearchRange(b.keys, cmp, 0, |b.keys|);
      if p.Ok? {
        var i := DescentIndex(p.value);
        ChildViews(load, a, b, valSize, i);
        var y := Child(OmapSource(load, 16, valSize), b, i);
        if y.Ok? {
          InChildren(b, i);
          DescendsAlike(load, Child(OmapSource(load, 0, valSize), a, i).value, y.value, valSize, cmp, t.kids[i], depth + 1);
        }
      }
    }
  }

  lemma ViewBlocks(a: Node, b: Node, valSize: nat)
    requires TwoViews(a, b, valSize)
    ensures a.block == b.block && a.leaf == b.leaf && |a.keys| == |b.keys|
  {
  }

  lemma InChildren(node: Node, i: nat)
    requires ValueAt(node, i).Ok?
    ensures i < |node.keys|
  {
  }

  /** A lookup searches the leaf a descent with 16-byte keys ends in. */
  lemma LookupDescends(om: ObjectMap, t: Tree, oid: nat, xid: nat)
    requires Maps(om, t) && Descend(MapSource(om), MapRoot(om), OmapCmp(oid, xid), 0).Ok?
    ensures Lookup(om, oid, xid) == LookupInLeaf(Descend(MapSource(om), MapRoot(om), OmapCmp(oid, xid), 0).value, oid, xid)
  {
    hide ParseNode, ParseTreeInfo, Present, Denotes, OmapSource, LookupInLeaf, Descend;
    var block := om.load(om.treeOid).value;
    var root := ParseNode(block).value;
    var info := ParseTreeInfo(root).value;
    var valSize := OrSixteen(info.valSize);
    if info.keySize == 0 {
      ViewsOf(block, valSize);
      DescendsAlike(om.load, Present(root, 0, valSize), Present(root, 16, valSize), valSize, OmapCmp(oid, xid), t, 0);
    }
  }
}
