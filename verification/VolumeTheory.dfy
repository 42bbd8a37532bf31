/** What the queries of a volume mean: the file-system tree read through the object map's tree. */
module VolumeTheory {
  import opened Bytes
  import opened BTree
  import opened BTreeTheory
  import opened NodeCodec
  import opened Omap
  import opened OmapTheory
  import opened Records
  import opened Inodes
  import opened FileRead
  import opened Decmpfs
  import opened Volume

  // ---------- one tree seen through the other ----------

  /** The block a reference means under the *abstract* map: that of its latest version no newer than `xid`. */
  ghost function MappedBlock(load: Loader, mapping: seq<Entry>, ref: nat, xid: nat): Result<Bytes> {
    var entry :- Resolve(mapping, ref, xid);
    if entry.flags / 16 % 2 == 1 then Err(Encrypted) else load(entry.paddr)
  }

  ghost function MappedSource(load: Loader, mapping: seq<Entry>, xid: nat, info: TreeInfo): Source {
    ref =>
      var block :- MappedBlock(load, mapping, ref, xid);
      var node :- ParseNode(block);
      Ok(Present(node, info.keySize, info.valSize))
  }

  /** The volume's object map, the tree it stands for, and the file-system tree denoted through it. */
  ghost predicate FsTree(v: OpenVolume, mt: Tree, t: Tree) {
    var om := OpenOmap(v.load, v.omapPaddr);
    && om.Ok? && Maps(om.value, mt) && Navigable(mt)
    && RootTree(v).Ok?
    && var (root, info) := RootTree(v).value;
    && Denotes(MappedSource(v.load, Flatten(mt), v.xid, info), Present(root, info.keySize, info.valSize), t)
    && Levels(t, MAX_DEPTH + 1)
    && Ordered(HeaderLe, t) && Headed(t)
  }

  /** Order of keys by their (id, type) prefix alone. */
  ghost predicate HeaderLe(a: Bytes, b: Bytes) {
    KeyHeader(a).Ok? && KeyHeader(b).Ok? &&
    var x, y := KeyHeader(a).value, KeyHeader(b).value;
    x.0 < y.0 || (x.0 == y.0 && x.1 <= y.1)
  }

  /** Every key and separator is long enough to hold a key header. */
  ghost predicate Headed(t: Tree) {
    match t
    case Leaf(es) => forall e :: e in es ==> KeyHeader(e.key).Ok?
    case Inner(seps, kids) =>
      (forall k :: k in seps ==> KeyHeader(k).Ok?) && forall i :: 0 <= i < |kids| ==> Headed(kids[i])
  }

  lemma {:induction false} HeadedComparable(t: Tree, id: nat, rtype: nat)
    requires Headed(t)
    ensures Comparable(CmpIdType(id, rtype), t)
  {
    if t.Inner? {
      forall i | 0 <= i < |t.kids|
        ensures Comparable(CmpIdType(id, rtype), t.kids[i])
      {
        HeadedComparable(t.kids[i], id, rtype);
      }
    }
  }

  lemma PrefixMonotone(id: nat, rtype: nat)
    ensures Monotone(CmpIdType(id, rtype), HeaderLe)
  {
    var cmp := CmpIdType(id, rtype);
    forall a, b | HeaderLe(a, b) && cmp(a).Ok? && cmp(b).Ok?
      ensures Rank(cmp, a) <= Rank(cmp, b)
    {
      var x, y := KeyHeader(a).value, KeyHeader(b).value;
      assert cmp(a) == Ok(if x.0 != id then CompareNats(x.0, id) else CompareNats(x.1, rtype));
      assert cmp(b) == Ok(if y.0 != id then CompareNats(y.0, id) else CompareNats(y.1, rtype));
    }
  }

  /** The real source is the mapped one, reference by reference. */
  lemma SourceIsMapped(om: ObjectMap, mt: Tree, xid: nat, info: TreeInfo, ref: nat)
    requires Maps(om, mt) && Navigable(mt)
    ensures FsSource(om, xid, info)(ref) == MappedSource(om.load, Flatten(mt), xid, info)(ref)
  {
    hide Lookup, Resolve, ParseNode, Maps;
    LookupRefines(om, mt, ref, xid);
    assert LoadVirtual(om, ref, xid) == MappedBlock(om.load, Flatten(mt), ref, xid);
  }

  ghost predicate SameSource(a: Source, b: Source) {
    forall ref :: a(ref) == b(ref)
  }

  lemma {:induction false} DenotesSame(a: Source, b: Source, node: Node, t: Tree)
    requires SameSource(a, b) && Denotes(a, node, t)
    ensures Denotes(b, node, t)
    decreases t
  {
    if t.Inner? {
      forall i | 0 <= i < |t.kids|
        ensures Child(b, node, i).Ok? && Denotes(b, Child(b, node, i).value, t.kids[i])
      {
        assert Child(b, node, i) == Child(a, node, i);
        DenotesSame(a, b, Child(a, node, i).value, t.kids[i]);
      }
    }
  }

  lemma {:induction false} ScanSame(a: Source, b: Source, node: Node, cmp: Cmp, depth: nat)
    requires SameSource(a, b) && depth <= MAX_DEPTH + 1
    ensures ScanTrace(a, node, cmp, depth) == ScanTrace(b, node, cmp, depth)
    decreases MAX_DEPTH + 1 - depth, |node.keys| + 1
  {
    if depth <= MAX_DEPTH {
      var lb := LowerBound(node.keys, cmp, 0, |node.keys|);
      if lb.Ok? && !node.leaf {
        ScanKidsSame(a, b, node, cmp, depth, if lb.value == 0 then 0 else lb.value - 1);
      }
    }
  }

  lemma {:induction false} ScanKidsSame(a: Source, b: Source, node: Node, cmp: Cmp, depth: nat, i: nat)
    requires SameSource(a, b) && depth <= MAX_DEPTH && i <= |node.keys|
    ensures ScanKids(a, node, cmp, depth, i) == ScanKids(b, node, cmp, depth, i)
    decreases MAX_DEPTH + 1 - depth, |node.keys| - i
  {
    if i < |node.keys| {
      assert Child(a, node, i) == Child(b, node, i);
      if Child(a, node, i).Ok? {
        ScanSame(a, b, Child(a, node, i).value, cmp, depth + 1);
        ScanKidsSame(a, b, node, cmp, depth, i + 1);
      }
    }
  }

  /** A scan of the two-tree composition shows the records not below (id, type), in order. */
  lemma QueryTraceIs(v: OpenVolume, mt: Tree, t: Tree, id: nat, rtype: nat)
    requires FsTree(v, mt, t)
    ensures QueryTrace(v, id, rtype) == Trace(DropLess(CmpIdType(id, rtype), Flatten(t)), None)
  {
    hide Denotes, Ordered, ScanTrace, WalkTrace, FsTree, OpenOmap, RootTree, Headed;
    TreeIsDenoted(v, mt, t);
    var om := OpenOmap(v.load, v.omapPaddr).value;
    var (root, info) := RootTree(v).value;
    var node := Present(root, info.keySize, info.valSize);
    HeadedComparable(t, id, rtype);
    PrefixMonotone(id, rtype);
    ScanRefinesFilter(FsSource(om, v.xid, info), node, CmpIdType(id, rtype), HeaderLe, t);
    WalkIsFlatten(FsSource(om, v.xid, info), node, t, 0);
  }

  /** The tree is what the real source, looking every reference up in the object map's tree, loads. */
  lemma TreeIsDenoted(v: OpenVolume, mt: Tree, t: Tree)
    requires FsTree(v, mt, t)
    ensures OpenOmap(v.load, v.omapPaddr).Ok? && RootTree(v).Ok?
    ensures var (root, info) := RootTree(v).value;
            Denotes(FsSource(OpenOmap(v.load, v.omapPaddr).value, v.xid, info), Present(root, info.keySize, info.valSize), t)
    ensures Levels(t, MAX_DEPTH + 1) && Ordered(HeaderLe, t) && Headed(t)
  {
    hide Maps, Denotes, Ordered, Headed, OpenOmap, RootTree;
    var om := OpenOmap(v.load, v.omapPaddr).value;
    var (root, info) := RootTree(v).value;
    var actual, mapped := FsSource(om, v.xid, info), MappedSource(om.load, Flatten(mt), v.xid, info);
    forall ref
      ensures mapped(ref) == actual(ref)
    {
      SourceIsMapped(om, mt, v.xid, info, ref);
    }
    assert om.load == v.load by { LoaderKept(v.load, v.omapPaddr); }
    DenotesSame(mapped, actual, Present(root, info.keySize, info.valSize), t);
  }

  lemma LoaderKept(load: Loader, paddr: nat)
    requires OpenOmap(load, paddr).Ok?
    ensures OpenOmap(load, paddr).value.load == load
  {
  }

  // ---------- matching records ----------

  /** The records of one (id, type), in order. */
  ghost function Select(es: seq<Entry>, id: nat, rtype: nat): seq<Entry> {
    if |es| == 0 then []
    else (if KeyHeader(es[0].key) == Ok((id, rtype)) then [es[0]] else []) + Select(es[1..], id, rtype)
  }

  /** Entries in ascending order of their key headers. */
  ghost predicate HeaderSorted(es: seq<Entry>) {
    (forall e :: e in es ==> KeyHeader(e.key).Ok?) && SortedEntries(HeaderLe, es)
  }

  lemma {:induction false} TreeSorted(t: Tree)
    requires Ordered(HeaderLe, t) && Headed(t)
    ensures HeaderSorted(Flatten(t))
  {
    HeadedComparable(t, 0, 0);
    ComparableFlat(CmpIdType(0, 0), t);
    forall e | e in Flatten(t)
      ensures KeyHeader(e.key).Ok?
    {
      assert CmpIdType(0, 0)(e.key).Ok?;
    }
  }

  lemma SortedTail(es: seq<Entry>)
    requires HeaderSorted(es) && |es| > 0
    ensures HeaderSorted(es[1..])
    ensures forall e :: e in es[1..] ==> HeaderLe(es[0].key, e.key)
  {
    forall e | e in es[1..]
      ensures HeaderLe(es[0].key, e.key)
    {
      var i :| 0 <= i < |es[1..]| && es[1..][i] == e;
      assert es[i + 1] == e;
    }
  }

  lemma {:induction false} NoneSelected(es: seq<Entry>, id: nat, rtype: nat)
    requires forall e :: e in es ==> KeyHeader(e.key) != Ok((id, rtype))
    ensures Select(es, id, rtype) == []
  {
    if |es| > 0 {
      assert es[0] in es;
      NoneSelected(es[1..], id, rtype);
    }
  }

  /** Entries below the target hold no matching record. */
  lemma {:induction false} DroppedUnselected(es: seq<Entry>, id: nat, rtype: nat)
    ensures Select(DropLess(CmpIdType(id, rtype), es), id, rtype) == Select(es, id, rtype)
  {
    if |es| > 0 && CmpIdType(id, rtype)(es[0].key) == Ok(Less) {
      DroppedUnselected(es[1..], id, rtype);
    }
  }

  lemma {:induction false} DropSorted(cmp: Cmp, es: seq<Entry>)
    requires HeaderSorted(es)
    ensures HeaderSorted(DropLess(cmp, es))
    ensures DropLess(cmp, es) != [] ==> cmp(DropLess(cmp, es)[0].key) != Ok(Less)
  {
    if |es| > 0 && cmp(es[0].key) == Ok(Less) {
      SortedTail(es);
      DropSorted(cmp, es[1..]);
    }
  }

  ghost function StateOf<S>(r: Result<(S, bool)>): Result<S> {
    match r
    case Ok((s, _)) => Ok(s)
    case Err(e) => Err(e)
  }

  /** Stopping at the first mismatch loses nothing: matching records are contiguous. */
  lemma {:induction false} MatchingIsSelect<S>(id: nat, rtype: nat, step: Visitor<S>, s: S, es: seq<Entry>)
    requires HeaderSorted(es) && (es != [] ==> CmpIdType(id, rtype)(es[0].key) != Ok(Less))
    ensures StateOf(Run(Matching(id, rtype, step), s, Trace(es, None))) ==
            StateOf(Run(step, s, Trace(Select(es, id, rtype), None)))
    decreases |es|
  {
    hide KeyHeader;
    if |es| > 0 {
      assert es[0] in es;
      SortedTail(es);
      if KeyHeader(es[0].key) == Ok((id, rtype)) {
        NextNotLess(es, id, rtype);
        var out := step(s, es[0]);
        var rest := Select(es[1..], id, rtype);
        assert Select(es, id, rtype)[1..] == rest;
        if out.Ok? && out.value.1 {
          MatchingIsSelect(id, rtype, step, out.value.0, es[1..]);
        }
      } else {
        RestAbove(es, id, rtype);
        NoneSelected(es, id, rtype);
      }
    }
  }

  lemma NextNotLess(es: seq<Entry>, id: nat, rtype: nat)
    requires HeaderSorted(es) && |es| > 0 && KeyHeader(es[0].key) == Ok((id, rtype))
    ensures es[1..] != [] ==> CmpIdType(id, rtype)(es[1..][0].key) != Ok(Less)
  {
    hide KeyHeader;
    if |es| > 1 {
      assert HeaderLe(es[0].key, es[1].key);
    }
  }

  lemma RestAbove(es: seq<Entry>, id: nat, rtype: nat)
    requires HeaderSorted(es) && |es| > 0
    requires CmpIdType(id, rtype)(es[0].key) != Ok(Less) && KeyHeader(es[0].key) != Ok((id, rtype))
    ensures forall e :: e in es ==> KeyHeader(e.key) != Ok((id, rtype))
  {
    hide KeyHeader;
    assert es[0] in es;
    SortedTail(es);
    forall e | e in es
      ensures KeyHeader(e.key) != Ok((id, rtype))
    {
      assert e == es[0] || e in es[1..];
    }
  }

  /** Every query is its callback run over exactly the matching records. */
  lemma QueryIsSelect<S>(v: OpenVolume, mt: Tree, t: Tree, id: nat, rtype: nat, step: Visitor<S>, s: S)
    requires FsTree(v, mt, t)
    ensures Query(v, id, rtype, step, s) == StateOf(Run(step, s, Trace(Select(Flatten(t), id, rtype), None)))
  {
    hide QueryTrace, CmpIdType, Matching;
    QueryTraceIs(v, mt, t, id, rtype);
    TreeSorted(t);
    var es := DropLess(CmpIdType(id, rtype), Flatten(t));
    DropSorted(CmpIdType(id, rtype), Flatten(t));
    DroppedUnselected(Flatten(t), id, rtype);
    MatchingIsSelect(id, rtype, step, s, es);
  }

  // ---------- inode, read_dir_inode, extents, xattr ----------

  /** `parse` of every record, or the first failure. */
  ghost function ParseAll<T>(parse: Entry -> Result<T>, es: seq<Entry>): Result<seq<T>> {
    if |es| == 0 then Ok([])
    else
      var x :- parse(es[0]);
      var rest :- ParseAll(parse, es[1..]);
      Ok([x] + rest)
  }

  lemma {:induction false} CollectIsParseAll<T>(parse: Entry -> Result<T>, s: seq<T>, es: seq<Entry>)
    ensures StateOf(Run(CollectStep(parse), s, Trace(es, None))) ==
            match ParseAll(parse, es) { case Ok(xs) => Ok(s + xs) case Err(e) => Err(e) }
    decreases |es|
  {
    if |es| > 0 {
      var x := parse(es[0]);
      if x.Ok? {
        CollectIsParseAll(parse, s + [x.value], es[1..]);
        var rest := ParseAll(parse, es[1..]);
        if rest.Ok? {
          assert s + [x.value] + rest.value == s + ([x.value] + rest.value);
        }
      }
    } else {
      assert s + [] == s;
    }
  }

  /** The first attribute of that name; an unreadable name or value before it is an error. */
  ghost function FirstNamed(es: seq<Entry>, name: Bytes): Result<Option<XattrValue>> {
    if |es| == 0 then Ok(None)
    else
      var k :- XattrName(es[0].key);
      if k != name then FirstNamed(es[1..], name)
      else
        var x :- ParseXattr(es[0].val);
        Ok(Some(x))
  }

  /** The record it takes is the one no other of that name comes before. */
  lemma {:induction false} FirstNamedAt(es: seq<Entry>, name: Bytes, i: nat)
    requires i < |es| && XattrName(es[i].key) == Ok(name)
    requires forall j :: 0 <= j < i ==> XattrName(es[j].key).Ok? && XattrName(es[j].key) != Ok(name)
    ensures FirstNamed(es, name) == match ParseXattr(es[i].val) case Ok(x) => Ok(Some(x)) case Err(e) => Err(e)
  {
    hide XattrName, ParseXattr;
    if i > 0 {
      FirstNamedAt(es[1..], name, i - 1);
    }
  }

  lemma {:induction false} XattrStepIsFirstNamed(name: Bytes, es: seq<Entry>)
    ensures StateOf(Run(XattrStep(name), None, Trace(es, None))) == FirstNamed(es, name)
    decreases |es|
  {
    hide XattrName, ParseXattr;
    if |es| > 0 {
      XattrStepIsFirstNamed(name, es[1..]);
    }
  }

  /** The inode query is the first inode record of that id. */
  lemma InodeIsFirst(v: OpenVolume, mt: Tree, t: Tree, id: nat)
    requires FsTree(v, mt, t)
    ensures InodeQuery(v, id) ==
            var records := Select(Flatten(t), id, APFS_TYPE_INODE);
            if records == [] then Err(NotFound) else InodeOf(id, records[0])
  {
    hide FsTree, Query, InodeOf;
    QueryIsSelect(v, mt, t, id, APFS_TYPE_INODE, InodeStep(id), None);
  }

  /** A listing is the directory's records, each parsed, in order and with multiplicity. */
  lemma ListingIsSelect(v: OpenVolume, mt: Tree, t: Tree, dirId: nat)
    requires FsTree(v, mt, t)
    ensures DirQuery(v, dirId) == ParseAll(DirEntryOf(v.Hashed()), Select(Flatten(t), dirId, APFS_TYPE_DIR_REC))
  {
    hide FsTree, Query, Run;
    QueryIsSelect(v, mt, t, dirId, APFS_TYPE_DIR_REC, CollectStep(DirEntryOf(v.Hashed())), []);
    CollectIsParseAll(DirEntryOf(v.Hashed()), [], Select(Flatten(t), dirId, APFS_TYPE_DIR_REC));
    NothingBefore(ParseAll(DirEntryOf(v.Hashed()), Select(Flatten(t), dirId, APFS_TYPE_DIR_REC)));
  }

  lemma ExtentsAreSelect(v: OpenVolume, mt: Tree, t: Tree, streamId: nat)
    requires FsTree(v, mt, t)
    ensures ExtentsQuery(v, streamId) == ParseAll(ExtentOf(), Select(Flatten(t), streamId, APFS_TYPE_FILE_EXTENT))
  {
    hide FsTree, Query, Run;
    QueryIsSelect(v, mt, t, streamId, APFS_TYPE_FILE_EXTENT, CollectStep(ExtentOf()), []);
    CollectIsParseAll(ExtentOf(), [], Select(Flatten(t), streamId, APFS_TYPE_FILE_EXTENT));
    NothingBefore(ParseAll(ExtentOf(), Select(Flatten(t), streamId, APFS_TYPE_FILE_EXTENT)));
  }

  lemma NothingBefore<T>(r: Result<seq<T>>)
    ensures (match r { case Ok(xs) => Ok([] + xs) case Err(e) => Err(e) }) == r
  {
    if r.Ok? {
      assert [] + r.value == r.value;
    }
  }

  lemma XattrIsFirstNamed(v: OpenVolume, mt: Tree, t: Tree, id: nat, name: Bytes)
    requires FsTree(v, mt, t)
    ensures XattrQuery(v, id, name) == FirstNamed(Select(Flatten(t), id, APFS_TYPE_XATTR), name)
  {
    hide FsTree, Query, Run;
    QueryIsSelect(v, mt, t, id, APFS_TYPE_XATTR, XattrStep(name), None);
    XattrStepIsFirstNamed(name, Select(Flatten(t), id, APFS_TYPE_XATTR));
  }

  /** Reading a plain file is a slice of the sparse file its extent records describe. */
  lemma PlainFileIsSparse(v: OpenVolume, mt: Tree, t: Tree, z: Zlib, ino: Inode, offset: nat, n: nat)
    requires FsTree(v, mt, t) && !ino.IsDir() && !ino.IsCompressed() && offset < ino.size
    ensures FileContent(v, z, ino, offset, n) ==
            match ParseAll(ExtentOf(), Select(Flatten(t), ino.privateId, APFS_TYPE_FILE_EXTENT)) {
              case Err(e) => Err(e)
              case Ok(exts) => FileSlice(v.dev, v.bs, exts, ino.size, offset, n)
            }
  {
    hide FsTree, ExtentsQuery, FileSlice, ParseAll;
    ExtentsAreSelect(v, mt, t, ino.privateId);
  }

  // ---------- snapshot isolation of whole queries ----------

  /** Two views of one container whose maps, of any shapes, agree on what is visible at their xid. */
  ghost predicate SameView(v: OpenVolume, w: OpenVolume, mt: Tree, nt: Tree) {
    && v.load == w.load && v.xid == w.xid && v.rootTreeOid == w.rootTreeOid
    && OpenOmap(v.load, v.omapPaddr).Ok? && OpenOmap(w.load, w.omapPaddr).Ok?
    && Maps(OpenOmap(v.load, v.omapPaddr).value, mt) && Navigable(mt)
    && Maps(OpenOmap(w.load, w.omapPaddr).value, nt) && Navigable(nt)
    && Visible(Flatten(mt), v.xid) == Visible(Flatten(nt), v.xid)
  }

  /** Mappings newer than a reader's xid change nothing any of its queries shows, on any tree, sound or not. */
  lemma QueriesAreIsolated<S>(v: OpenVolume, w: OpenVolume, mt: Tree, nt: Tree, id: nat, rtype: nat, step: Visitor<S>, s: S)
    requires SameView(v, w, mt, nt)
    ensures QueryTrace(v, id, rtype) == QueryTrace(w, id, rtype)
    ensures Query(v, id, rtype, step, s) == Query(w, id, rtype, step, s)
  {
    hide Maps, ScanTrace, LoadVirtual, ParseNode, ParseTreeInfo, Visible;
    var a, b := OpenOmap(v.load, v.omapPaddr).value, OpenOmap(w.load, w.omapPaddr).value;
    SameBlocks(v, w, mt, nt);
    assert RootTree(v) == RootTree(w);
    if RootTree(v).Ok? {
      var (root, info) := RootTree(v).value;
      var f, g := FsSource(a, v.xid, info), FsSource(b, v.xid, info);
      forall ref
        ensures f(ref) == g(ref)
      {
        assert LoadVirtual(a, ref, v.xid) == LoadVirtual(b, ref, v.xid);
      }
      ScanSame(f, g, Present(root, info.keySize, info.valSize), CmpIdType(id, rtype), 0);
    }
  }

  lemma SameBlocks(v: OpenVolume, w: OpenVolume, mt: Tree, nt: Tree)
    requires SameView(v, w, mt, nt)
    ensures forall ref :: LoadVirtual(OpenOmap(v.load, v.omapPaddr).value, ref, v.xid) ==
                          LoadVirtual(OpenOmap(w.load, w.omapPaddr).value, ref, v.xid)
  {
    hide Maps, Lookup, Visible;
    var a, b := OpenOmap(v.load, v.omapPaddr).value, OpenOmap(w.load, w.omapPaddr).value;
    forall ref
      ensures LoadVirtual(a, ref, v.xid) == LoadVirtual(b, ref, v.xid)
    {
      SnapshotIsolation(a, mt, b, nt, ref, v.xid);
    }
  }

  /** Opening a volume is isolated the same way: its superblock is looked up in the container's map. */
  lemma OpenIsIsolated(load: Loader, dev: Bytes, bs: nat, c: nat, d: nat, ct: Tree, dt: Tree, fsOid: nat, xid: nat)
    requires OpenOmap(load, c).Ok? && Maps(OpenOmap(load, c).value, ct) && Navigable(ct)
    requires OpenOmap(load, d).Ok? && Maps(OpenOmap(load, d).value, dt) && Navigable(dt)
    requires Visible(Flatten(ct), xid) == Visible(Flatten(dt), xid)
    ensures Open(load, dev, bs, c, fsOid, xid) == Open(load, dev, bs, d, fsOid, xid)
    ensures Open(load, dev, bs, c, fsOid, xid).Ok? ==>
              MappedBlock(load, Flatten(ct), fsOid, xid).Ok?
  {
    hide Maps, Lookup, Visible, ParseObjHeader, Field, Resolve;
    var a, b := OpenOmap(load, c).value, OpenOmap(load, d).value;
    LoaderKept(load, c);
    LoaderKept(load, d);
    SnapshotIsolation(a, ct, b, dt, fsOid, xid);
    LookupRefines(a, ct, fsOid, xid);
    assert LoadVirtual(a, fsOid, xid) == MappedBlock(load, Flatten(ct), fsOid, xid);
  }
}
