/** Corrupt input and panics: what no image can make the queries do, and exactly when a read can panic. */
module PanicFree {
  import opened Bytes
  import opened Container
  import opened BTree
  import opened NodeCodec
  import opened Omap
  import opened Records
  import opened Inodes
  import opened FileRead
  import opened Decmpfs
  import opened Volume

  ghost predicate Calm<T>(r: Result<T>) {
    r.Err? ==> r.error != Panic
  }

  ghost predicate CalmNode(node: Node) {
    forall i :: 0 <= i < |node.keys| ==> Calm(node.keys[i]) && Calm(node.vals[i])
  }

  ghost predicate CalmCmp(cmp: Cmp) {
    forall k :: Calm(cmp(k))
  }

  ghost predicate CalmSource(src: Source) {
    forall ref :: Calm(src(ref)) && (src(ref).Ok? ==> CalmNode(src(ref).value))
  }

  /** A loader fails, if it does, without panicking. */
  ghost predicate CalmLoader(load: Loader) {
    forall paddr :: Calm(load(paddr))
  }

  /** The container's own loader is one, in a build without overflow checks; with them, an address past
      64 bits makes it panic (`Container.LoadPanics`). */
  lemma ContainerIsCalm(dev: Bytes, bs: nat)
    ensures CalmLoader(LoadChecked(dev, bs, false))
  {
    hide LoadChecked;
    forall paddr
      ensures Calm(LoadChecked(dev, bs, false)(paddr))
    {
      LoadPanics(dev, bs, false, paddr);
    }
  }

  // ---------- the engine ----------

  lemma {:induction false} SearchIsCalm(keys: seq<Result<Bytes>>, cmp: Cmp, lo: nat, hi: nat)
    requires lo <= hi <= |keys| && CalmCmp(cmp) && forall i :: 0 <= i < |keys| ==> Calm(keys[i])
    ensures Calm(SearchRange(keys, cmp, lo, hi)) && Calm(LowerBound(keys, cmp, lo, hi))
    decreases hi - lo
  {
    if lo < hi {
      SearchIsCalm(keys, cmp, (lo + hi) / 2 + 1, hi);
      SearchIsCalm(keys, cmp, lo, (lo + hi) / 2);
    }
  }

  lemma ChildIsCalm(src: Source, node: Node, i: nat)
    requires CalmSource(src) && CalmNode(node)
    ensures Calm(Child(src, node, i)) && (Child(src, node, i).Ok? ==> CalmNode(Child(src, node, i).value))
  {
    hide Field;
  }

  lemma {:induction false} DescentIsCalm(src: Source, node: Node, cmp: Cmp, depth: nat)
    requires depth <= MAX_DEPTH && CalmSource(src) && CalmNode(node) && CalmCmp(cmp)
    ensures var r := Descend(src, node, cmp, depth);
            Calm(r) && (r.Ok? ==> CalmNode(r.value))
    decreases MAX_DEPTH - depth
  {
    hide SearchRange, CalmSource, CalmNode, Child;
    if !node.leaf && depth < MAX_DEPTH {
      KeysAreCalm(node);
      SearchIsCalm(node.keys, cmp, 0, |node.keys|);
      var p := SearchRange(node.keys, cmp, 0, |node.keys|);
      if p.Ok? {
        ChildIsCalm(src, node, DescentIndex(p.value));
        var child := Child(src, node, DescentIndex(p.value));
        if child.Ok? {
          DescentIsCalm(src, child.value, cmp, depth + 1);
        }
      }
    }
  }

  lemma KeysAreCalm(node: Node)
    requires CalmNode(node)
    ensures forall i :: 0 <= i < |node.keys| ==> Calm(node.keys[i])
  {
  }

  ghost predicate CalmTrace(t: Trace) {
    t.end != Some(Panic)
  }

  lemma {:induction false} LeafTraceIsCalm(node: Node, i: nat)
    requires CalmNode(node) && i <= |node.keys|
    ensures CalmTrace(LeafTrace(node, i))
    decreases |node.keys| - i
  {
    if i < |node.keys| {
      LeafTraceIsCalm(node, i + 1);
    }
  }

  lemma {:induction false} ScanIsCalm(src: Source, node: Node, cmp: Cmp, depth: nat)
    requires depth <= MAX_DEPTH + 1 && CalmSource(src) && CalmNode(node) && CalmCmp(cmp)
    ensures CalmTrace(ScanTrace(src, node, cmp, depth))
    decreases MAX_DEPTH + 1 - depth, |node.keys| + 1
  {
    hide CalmSource, CalmNode, LowerBound, Child;
    if depth <= MAX_DEPTH {
      KeysAreCalm(node);
      SearchIsCalm(node.keys, cmp, 0, |node.keys|);
      var lb := LowerBound(node.keys, cmp, 0, |node.keys|);
      if lb.Ok? {
        BoundInRange(node.keys, cmp, lb.value);
        if node.leaf {
          LeafTraceIsCalm(node, lb.value);
        } else {
          ScanKidsAreCalm(src, node, cmp, depth, if lb.value == 0 then 0 else lb.value - 1);
        }
      }
    }
  }

  lemma BoundInRange(keys: seq<Result<Bytes>>, cmp: Cmp, lb: nat)
    requires LowerBound(keys, cmp, 0, |keys|) == Ok(lb)
    ensures lb <= |keys|
  {
  }

  lemma {:induction false} ScanKidsAreCalm(src: Source, node: Node, cmp: Cmp, depth: nat, i: nat)
    requires depth <= MAX_DEPTH && i <= |node.keys| && CalmSource(src) && CalmNode(node) && CalmCmp(cmp)
    ensures CalmTrace(ScanKids(src, node, cmp, depth, i))
    decreases MAX_DEPTH + 1 - depth, |node.keys| - i
  {
    hide CalmSource, CalmNode, Child;
    if i < |node.keys| {
      ChildIsCalm(src, node, i);
      var child := Child(src, node, i);
      if child.Ok? {
        ScanIsCalm(src, child.value, cmp, depth + 1);
        ScanKidsAreCalm(src, node, cmp, depth, i + 1);
      }
    }
  }

  /** A callback that never panics. */
  ghost predicate CalmStep<S(!new)>(f: Visitor<S>) {
    forall s, e :: Calm(f(s, e))
  }

  lemma {:induction false} RunIsCalm<S(!new)>(f: Visitor<S>, s: S, t: Trace)
    requires CalmStep(f) && CalmTrace(t)
    ensures Calm(Run(f, s, t))
    decreases |t.seen|
  {
    if |t.seen| > 0 {
      var r := f(s, t.seen[0]);
      if r.Ok? {
        RunIsCalm(f, r.value.0, Trace(t.seen[1..], t.end));
      }
    }
  }

  // ---------- nodes and object maps ----------

  lemma PresentIsCalm(nb: NodeBlock, keySize: nat, valSize: nat)
    ensures CalmNode(Present(nb, keySize, valSize))
  {
    hide Field;
    var node := Present(nb, keySize, valSize);
    forall i | 0 <= i < |node.keys|
      ensures Calm(node.keys[i]) && Calm(node.vals[i])
    {
      assert node.keys[i] == nb.Key(i, keySize) && node.vals[i] == nb.Value(i, valSize, 8);
      assert Calm(nb.TocEntry(i));
    }
  }

  lemma ParsersAreCalm(block: Bytes)
    ensures Calm(ParseNode(block)) && Calm(ParseObjHeader(block))
    ensures forall root :: Calm(ParseTreeInfo(root))
  {
    hide Field;
  }

  lemma OmapSourceIsCalm(load: Loader, keySize: nat, valSize: nat)
    requires CalmLoader(load)
    ensures CalmSource(OmapSource(load, keySize, valSize))
  {
    hide ParseNode, Present, CalmNode;
    var src := OmapSource(load, keySize, valSize);
    forall ref
      ensures Calm(src(ref)) && (src(ref).Ok? ==> CalmNode(src(ref).value))
    {
      var block := load(ref);
      if block.Ok? {
        ParsersAreCalm(block.value);
        var nb := ParseNode(block.value);
        if nb.Ok? {
          PresentIsCalm(nb.value, keySize, valSize);
        }
      }
    }
  }

  lemma OmapCmpIsCalm(oid: nat, xid: nat)
    ensures CalmCmp(OmapCmp(oid, xid))
  {
    hide Field;
  }

  lemma LeafLookupIsCalm(leaf: Node, oid: nat, xid: nat)
    requires CalmNode(leaf)
    ensures Calm(LookupInLeaf(leaf, oid, xid))
  {
    hide Field, SearchRange, OmapCmp;
    OmapCmpIsCalm(oid, xid);
    SearchIsCalm(leaf.keys, OmapCmp(oid, xid), 0, |leaf.keys|);
  }

  /** A lookup never panics, whatever the map's blocks hold. */
  lemma LookupIsCalm(om: ObjectMap, oid: nat, xid: nat)
    requires CalmLoader(om.load)
    ensures Calm(Lookup(om, oid, xid)) && Calm(LoadVirtual(om, oid, xid))
  {
    hide ParseNode, ParseTreeInfo, Present, OmapSource, OmapCmp, Descend, LookupInLeaf, CalmSource, CalmNode, CalmCmp;
    var block := om.load(om.treeOid);
    if block.Ok? {
      ParsersAreCalm(block.value);
      var root := ParseNode(block.value);
      if root.Ok? && ParseTreeInfo(root.value).Ok? {
        var info := ParseTreeInfo(root.value).value;
        var valSize := OrSixteen(info.valSize);
        OmapSourceIsCalm(om.load, info.keySize, valSize);
        PresentIsCalm(root.value, info.keySize, valSize);
        OmapCmpIsCalm(oid, xid);
        DescentIsCalm(OmapSource(om.load, info.keySize, valSize), Present(root.value, info.keySize, valSize), OmapCmp(oid, xid), 0);
        FoundIsCalm(om, info, valSize, Present(root.value, info.keySize, valSize), oid, xid);
      }
    }
  }

  lemma FoundIsCalm(om: ObjectMap, info: TreeInfo, valSize: nat, root: Node, oid: nat, xid: nat)
    requires var r := Descend(OmapSource(om.load, info.keySize, valSize), root, OmapCmp(oid, xid), 0);
             r.Ok? ==> CalmNode(r.value)
    ensures var r := Descend(OmapSource(om.load, info.keySize, valSize), root, OmapCmp(oid, xid), 0);
            r.Ok? ==> Calm(LookupInLeaf(r.value, oid, xid)) && Calm(ParseNode(r.value.block)) &&
                      (ParseNode(r.value.block).Ok? ==>
                         Calm(LookupInLeaf(Present(ParseNode(r.value.block).value, 16, valSize), oid, xid)))
  {
    hide ParseNode, Present, OmapSource, OmapCmp, Descend, LookupInLeaf, CalmNode;
    var r := Descend(OmapSource(om.load, info.keySize, valSize), root, OmapCmp(oid, xid), 0);
    if r.Ok? {
      LeafLookupIsCalm(r.value, oid, xid);
      ParsersAreCalm(r.value.block);
      if ParseNode(r.value.block).Ok? {
        PresentIsCalm(ParseNode(r.value.block).value, 16, valSize);
        LeafLookupIsCalm(Present(ParseNode(r.value.block).value, 16, valSize), oid, xid);
      }
    }
  }

  // ---------- queries ----------

  lemma FsSourceIsCalm(om: ObjectMap, xid: nat, info: TreeInfo)
    requires CalmLoader(om.load)
    ensures CalmSource(FsSource(om, xid, info))
  {
    hide ParseNode, Present, CalmNode, Lookup;
    var src := FsSource(om, xid, info);
    forall ref
      ensures Calm(src(ref)) && (src(ref).Ok? ==> CalmNode(src(ref).value))
    {
      LookupIsCalm(om, ref, xid);
      var block := LoadVirtual(om, ref, xid);
      if block.Ok? {
        ParsersAreCalm(block.value);
        var nb := ParseNode(block.value);
        if nb.Ok? {
          PresentIsCalm(nb.value, info.keySize, info.valSize);
        }
      }
    }
  }

  lemma MapOpenIsCalm(load: Loader, paddr: nat)
    requires CalmLoader(load)
    ensures Calm(OpenOmap(load, paddr)) && (OpenOmap(load, paddr).Ok? ==> OpenOmap(load, paddr).value.load == load)
  {
    hide Field;
    if load(paddr).Ok? {
      ParsersAreCalm(load(paddr).value);
    }
  }

  lemma RootTreeIsCalm(v: OpenVolume)
    requires CalmLoader(v.load)
    ensures Calm(RootTree(v))
  {
    hide ParseNode, ParseTreeInfo, Lookup, OpenOmap;
    MapOpenIsCalm(v.load, v.omapPaddr);
    var om := OpenOmap(v.load, v.omapPaddr);
    if om.Ok? {
      LookupIsCalm(om.value, v.rootTreeOid, v.xid);
      var block := LoadVirtual(om.value, v.rootTreeOid, v.xid);
      if block.Ok? {
        ParsersAreCalm(block.value);
      }
    }
  }

  lemma CmpIdTypeIsCalm(id: nat, rtype: nat)
    ensures CalmCmp(CmpIdType(id, rtype))
  {
    hide Field;
  }

  lemma QueryTraceIsCalm(v: OpenVolume, id: nat, rtype: nat)
    requires CalmLoader(v.load)
    ensures CalmTrace(QueryTrace(v, id, rtype))
  {
    hide OpenOmap, RootTree, FsSource, Present, CmpIdType, ScanTrace, CalmSource, CalmNode, CalmCmp;
    MapOpenIsCalm(v.load, v.omapPaddr);
    RootTreeIsCalm(v);
    if RootTree(v).Ok? && OpenOmap(v.load, v.omapPaddr).Ok? {
      var (root, info) := RootTree(v).value;
      var om := OpenOmap(v.load, v.omapPaddr).value;
      FsSourceIsCalm(om, v.xid, info);
      PresentIsCalm(root, info.keySize, info.valSize);
      CmpIdTypeIsCalm(id, rtype);
      ScanIsCalm(FsSource(om, v.xid, info), Present(root, info.keySize, info.valSize), CmpIdType(id, rtype), 0);
    }
  }

  lemma QueryIsCalm<S(!new)>(v: OpenVolume, id: nat, rtype: nat, step: Visitor<S>, s: S)
    requires CalmLoader(v.load) && CalmStep(step)
    ensures Calm(Query(v, id, rtype, step, s))
  {
    hide QueryTrace, Run, KeyHeader;
    QueryTraceIsCalm(v, id, rtype);
    MatchingIsCalm(id, rtype, step);
    RunIsCalm(Matching(id, rtype, step), s, QueryTrace(v, id, rtype));
  }

  lemma MatchingIsCalm<S(!new)>(id: nat, rtype: nat, step: Visitor<S>)
    requires CalmStep(step)
    ensures CalmStep(Matching(id, rtype, step))
  {
    hide Field;
    forall s, e
      ensures Calm(Matching(id, rtype, step)(s, e))
    {
      assert KeyHeader(e.key).Err? ==> KeyHeader(e.key) == Err(Parse);
      assert Calm(step(s, e));
    }
  }

  lemma CollectIsCalm<T(!new)>(parse: Entry -> Result<T>)
    requires forall e :: Calm(parse(e))
    ensures CalmStep(CollectStep(parse))
  {
    forall s, e
      ensures Calm(CollectStep(parse)(s, e))
    {
      assert Calm(parse(e));
    }
  }

  lemma {:induction false} XFieldsAreCalm(val: Bytes, metas: seq<(nat, nat)>, pos: nat, ino: Inode)
    ensures Calm(XFields(val, metas, pos, ino))
    decreases |metas|
  {
    hide Field, CutAtNul;
    if |metas| > 0 {
      var (xtype, size) := metas[0];
      if pos + size <= |val| {
        var next := ApplyField(xtype, val[pos..pos + size], ino);
        if next.Ok? {
          XFieldsAreCalm(val, metas[1..], NextField(val, pos, size), next.value);
        }
      }
    }
  }

  lemma InodesAreCalm(id: nat, e: Entry)
    ensures Calm(InodeOf(id, e))
  {
    hide Field, XFields, Metas, FixedPart;
    if e.val.Some? && |e.val.value| >= FIXED_SIZE + 4 {
      var val := e.val.value;
      var n := Field(val, FIXED_SIZE, 2);
      if FIXED_SIZE + 4 + 4 * n <= |val| {
        XFieldsAreCalm(val, Metas(val, n), FIXED_SIZE + 4 + 4 * n, FixedPart(id, val));
      }
    }
  }

  lemma StepsAreCalm(v: OpenVolume, id: nat, name: Bytes)
    ensures CalmStep(InodeStep(id)) && CalmStep(XattrStep(name))
    ensures CalmStep(CollectStep(DirEntryOf(v.Hashed()))) && CalmStep(CollectStep(ExtentOf()))
  {
    hide Field, CutAtNul, InodeOf;
    forall s, e
      ensures Calm(InodeStep(id)(s, e))
    {
      InodesAreCalm(id, e);
    }
    CollectIsCalm(DirEntryOf(v.Hashed()));
    CollectIsCalm(ExtentOf());
  }

  /** No record query panics, whatever the image holds: truncated keys and values, cycles, loose or missing
      separators, records of any content. */
  lemma QueriesAreCalm(v: OpenVolume, id: nat, name: Bytes)
    requires CalmLoader(v.load)
    ensures Calm(InodeQuery(v, id)) && Calm(DirQuery(v, id)) && Calm(ExtentsQuery(v, id)) && Calm(XattrQuery(v, id, name))
  {
    hide Query, InodeStep, XattrStep, CollectStep, DirEntryOf, ExtentOf, CalmStep;
    StepsAreCalm(v, id, name);
    QueryIsCalm(v, id, APFS_TYPE_INODE, InodeStep(id), None);
    QueryIsCalm(v, id, APFS_TYPE_DIR_REC, CollectStep(DirEntryOf(v.Hashed())), []);
    QueryIsCalm(v, id, APFS_TYPE_FILE_EXTENT, CollectStep(ExtentOf()), []);
    QueryIsCalm(v, id, APFS_TYPE_XATTR, XattrStep(name), None);
  }

  // ---------- reads ----------

  /** The attribute is a stream that claims more bytes than a buffer can have. */
  ghost predicate Oversized(v: OpenVolume, id: nat, name: Bytes) {
    match XattrQuery(v, id, name)
    case Ok(Some(Stream(_, size))) => size >= 0x8000_0000_0000_0000
    case _ => false
  }

  /** Reading an attribute panics exactly when it is a stream of a size no buffer can have. */
  lemma XattrPanics(v: OpenVolume, id: nat, name: Bytes)
    requires CalmLoader(v.load)
    ensures XattrContent(v, id, name) == Err(Panic) <==> Oversized(v, id, name)
  {
    hide XattrQuery, ExtentsQuery, FileSlice;
    QueriesAreCalm(v, id, name);
    var found := XattrQuery(v, id, name);
    if found.Ok? && found.value.Some? && found.value.value.Stream? {
      var objId, size := found.value.value.objId, found.value.value.size;
      QueriesAreCalm(v, objId, name);
      if ExtentsQuery(v, objId).Ok? {
        SlicesAreCalm(v.dev, v.bs, ExtentsQuery(v, objId).value, size);
      }
    }
  }

  lemma SlicesAreCalm(dev: Bytes, bs: nat, exts: seq<FileExtent>, size: nat)
    ensures forall offset: nat, n: nat :: Calm(FileSlice(dev, bs, exts, size, offset, n))
  {
    hide Window;
  }

  /** A compressed file, given its header attribute and its fork: the attribute's data, or every block of the
      fork that decodes, is at most one byte too short, and the fork can be fetched. */
  ghost predicate Undamaged(z: Zlib, x: Bytes, fork: Result<Bytes>) {
    ParseHeader(x).Ok? && |x| >= 16 ==>
      var h := ParseHeader(x).value;
      && (h.compressionType in {TYPE_PLAIN_XATTR, TYPE_ZLIB_XATTR} && InlineData(z, x, h).Ok? ==>
            h.uncompressedSize <= |InlineData(z, x, h).value| + 1)
      && (h.compressionType == TYPE_ZLIB_RSRC && h.uncompressedSize > 0 ==>
            fork != Err(Panic) && (fork.Ok? ==> SoundFork(z, fork.value, h.uncompressedSize)))
  }

  ghost predicate SoundFork(z: Zlib, fork: Bytes, size: nat) {
    TableBase(fork, size).Ok? ==>
      forall i: nat :: i * RSRC_BLOCK_SIZE < size ==> !FallsShort(z, fork, TableBase(fork, size).value, size, i)
  }

  lemma TablesAreCalm(fork: Bytes, size: nat)
    ensures Calm(TableBase(fork, size))
  {
    hide Field, FromBE;
  }

  /** No read of a fork panics exactly when the fork is sound. */
  lemma ForkPanics(z: Zlib, fork: Bytes, size: nat)
    ensures (forall offset: nat, n: nat :: offset + n <= size ==> RsrcSlice(z, fork, size, offset, n) != Err(Panic)) <==>
            SoundFork(z, fork, size)
  {
    hide TableBase, Failure, Content;
    TablesAreCalm(fork, size);
    if TableBase(fork, size).Ok? {
      PanicFreeFork(z, fork, size);
    }
  }

  lemma HeadersAreCalm(z: Zlib, x: Bytes)
    ensures Calm(ParseHeader(x))
    ensures ParseHeader(x).Ok? ==> |x| >= 16 && Calm(InlineData(z, x, ParseHeader(x).value))
  {
    hide Field;
  }

  ghost predicate NoPanics(z: Zlib, x: Bytes, fork: Result<Bytes>) {
    forall offset: nat, n: nat :: CompressedSlice(z, Ok(x), fork, offset, n) != Err(Panic)
  }

  lemma InlinePanics(z: Zlib, x: Bytes, fork: Result<Bytes>)
    requires ParseHeader(x).Ok? && ParseHeader(x).value.compressionType in {TYPE_PLAIN_XATTR, TYPE_ZLIB_XATTR}
    ensures NoPanics(z, x, fork) <==> Undamaged(z, x, fork)
  {
    hide ParseHeader, InlineData, RsrcSlice;
    HeadersAreCalm(z, x);
    if InlineData(z, x, ParseHeader(x).value).Ok? {
      PanicFreeInline(z, x, fork);
    }
  }

  lemma ForkFilePanics(z: Zlib, x: Bytes, fork: Result<Bytes>)
    requires ParseHeader(x).Ok? && ParseHeader(x).value.compressionType == TYPE_ZLIB_RSRC
    ensures NoPanics(z, x, fork) <==> Undamaged(z, x, fork)
  {
    hide ParseHeader, InlineData, RsrcSlice, SoundFork;
    HeadersAreCalm(z, x);
    var size := ParseHeader(x).value.uncompressedSize;
    if size > 0 && fork == Err(Panic) {
      assert CompressedSlice(z, Ok(x), fork, 0, 1) == Err(Panic);
    } else if size > 0 && fork.Ok? {
      ForkPanics(z, fork.value, size);
      if !SoundFork(z, fork.value, size) {
        var offset: nat, n: nat :| offset + n <= size && RsrcSlice(z, fork.value, size, offset, n) == Err(Panic);
        SomeReadPanics(z, x, fork, offset, n);
      }
    }
  }

  /** A panic in the fork is reached through the file, the panic being inside it. */
  lemma SomeReadPanics(z: Zlib, x: Bytes, fork: Result<Bytes>, offset: nat, n: nat)
    requires ParseHeader(x).Ok? && ParseHeader(x).value.compressionType == TYPE_ZLIB_RSRC && fork.Ok?
    requires offset + n <= ParseHeader(x).value.uncompressedSize
    requires RsrcSlice(z, fork.value, ParseHeader(x).value.uncompressedSize, offset, n) == Err(Panic)
    ensures CompressedSlice(z, Ok(x), fork, offset, n) == Err(Panic)
  {
    hide ParseHeader;
    var size := ParseHeader(x).value.uncompressedSize;
    TablesAreCalm(fork.value, size);
    assert n > 0;
  }

  /** Exactly when some read of a file can panic: its header attribute or its fork claims a size no buffer
      can have, or it decodes two or more bytes short. Reads of other files never do. */
  lemma FilePanics(v: OpenVolume, z: Zlib, ino: Inode)
    requires CalmLoader(v.load)
    ensures (forall offset: nat, n: nat :: FileContent(v, z, ino, offset, n) != Err(Panic)) <==>
            (!ino.IsDir() && ino.IsCompressed() ==>
               && !Oversized(v, ino.id, XATTR_DECMPFS)
               && (XattrContent(v, ino.id, XATTR_DECMPFS).Ok? ==>
                     Undamaged(z, XattrContent(v, ino.id, XATTR_DECMPFS).value, XattrContent(v, ino.id, XATTR_RESOURCE_FORK))))
  {
    hide XattrContent, Oversized, Undamaged, FileSlice, ExtentsQuery, CompressedSlice;
    XattrPanics(v, ino.id, XATTR_DECMPFS);
    var x, fork := XattrContent(v, ino.id, XATTR_DECMPFS), XattrContent(v, ino.id, XATTR_RESOURCE_FORK);
    if !ino.IsDir() && ino.IsCompressed() {
      CompressedPanics(z, x, fork);
      assert forall offset: nat, n: nat :: FileContent(v, z, ino, offset, n) == CompressedSlice(z, x, fork, offset, n);
    } else {
      QueriesAreCalm(v, ino.privateId, []);
      if ExtentsQuery(v, ino.privateId).Ok? {
        SlicesAreCalm(v.dev, v.bs, ExtentsQuery(v, ino.privateId).value, ino.size);
      }
    }
  }

  lemma CompressedPanics(z: Zlib, x: Result<Bytes>, fork: Result<Bytes>)
    ensures (forall offset: nat, n: nat :: CompressedSlice(z, x, fork, offset, n) != Err(Panic)) <==>
            x != Err(Panic) && (x.Ok? ==> Undamaged(z, x.value, fork))
  {
    hide ParseHeader, InlineData, RsrcSlice, SoundFork;
    if x.Err? {
      assert CompressedSlice(z, x, fork, 0, 0) == Err(x.error);
    } else {
      HeadersAreCalm(z, x.value);
      var h := ParseHeader(x.value);
      if h.Ok? && h.value.compressionType in {TYPE_PLAIN_XATTR, TYPE_ZLIB_XATTR} {
        InlinePanics(z, x.value, fork);
      } else if h.Ok? && h.value.compressionType == TYPE_ZLIB_RSRC {
        ForkFilePanics(z, x.value, fork);
      }
    }
  }
}
