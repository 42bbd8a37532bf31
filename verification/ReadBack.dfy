/** Whole files, from the writer's records to the reader's answers. */
module ReadBack {
  import opened Bytes
  import opened Hash
  import opened BTree
  import opened BTreeTheory
  import opened NodeCodec
  import opened NodeWriter
  import opened NodeRoundTrip
  import opened Omap
  import opened OmapTheory
  import opened Records
  import opened Inodes
  import opened Sorting
  import opened FileRead
  import opened Decmpfs
  import opened RsrcWriter
  import opened Volume
  import opened VolumeTheory
  import opened EndToEnd

  /** The volume's object map, any tree of it, resolves the root's oid to block `b`. */
  ghost predicate RootBlockIs(v: OpenVolume, mt: Tree, b: Bytes) {
    var om := OpenOmap(v.load, v.omapPaddr);
    && om.Ok? && Maps(om.value, mt) && Navigable(mt)
    && MappedBlock(v.load, Flatten(mt), v.rootTreeOid, v.xid) == Ok(b)
  }

  /** The volume's tree is one leaf holding exactly these records, sorted. */
  ghost predicate HoldsRecords(v: OpenVolume, mt: Tree, recs: seq<Record>) {
    AllSortable(recs) && FsTree(v, mt, Leaf(EntriesOf(Sort(recs))))
  }

  /** A volume whose root is a block the writer inserted records into stores the node's and the added records. */
  lemma WrittenRootStores(v: OpenVolume, mt: Tree, was: Bytes, node: NodeImage, added: seq<Record>, b: Bytes)
    requires Inserted(was, node, added, b) && LeafShaped(was, node) && node.isRoot && RootBlockIs(v, mt, b)
    ensures HoldsRecords(v, mt, node.records + added)
  {
    hide Sortable, LayoutOf, Written, ParseNode, Field, Maps, Denotes, HeaderLe, Ordered, Headed, NodeWriter.Fits, Present;
    var recs := node.records + added;
    WrittenRoot(was, Rebuilt(node, added), b);
    RootOpens(v, mt, b);
    SortSorts(recs);
    LeafIsHeaderSorted(Sort(recs));
    var (root, info) := RootTree(v).value;
    WrittenLeaf(was, Rebuilt(node, added), b, MappedSource(v.load, Flatten(mt), v.xid, info), info.keySize, info.valSize);
  }

  lemma RootOpens(v: OpenVolume, mt: Tree, b: Bytes)
    requires RootBlockIs(v, mt, b) && ParseNode(b).Ok? && ParseTreeInfo(ParseNode(b).value).Ok?
    ensures RootTree(v) == Ok((ParseNode(b).value, ParseTreeInfo(ParseNode(b).value).value))
  {
    hide Lookup, Resolve, ParseNode, ParseTreeInfo, Maps;
    var om := OpenOmap(v.load, v.omapPaddr).value;
    LookupRefines(om, mt, v.rootTreeOid, v.xid);
    LoaderKept(v.load, v.omapPaddr);
    assert LoadVirtual(om, v.rootTreeOid, v.xid) == MappedBlock(om.load, Flatten(mt), v.rootTreeOid, v.xid);
  }

  lemma WrittenRoot(was: Bytes, node: NodeImage, b: Bytes)
    requires |was| == BS && NodeWriter.Fits(was, node) && Written(was, LayoutOf(was, node), b)
    requires NodeShaped(was, node) && node.isRoot
    ensures ParseNode(b).Ok? && ParseTreeInfo(ParseNode(b).value).Ok?
  {
    hide Field, ParseNode, Reads, NodeWriter.Fits, HeaderWritten, DataWritten, TailWritten, LayoutOf;
    ReaderRoundTrip(was, node, b);
  }

  // ---------- decoding what was built ----------

  lemma {:induction false} DecodesTo<T>(parse: Entry -> Result<T>, found: seq<Record>, built: seq<Record>, xs: seq<T>)
    requires multiset(found) == multiset(built) && |built| == |xs|
    requires forall i :: 0 <= i < |xs| ==> parse(EntryOf(built[i])) == Ok(xs[i])
    ensures ParseAll(parse, EntriesOf(found)).Ok? && multiset(ParseAll(parse, EntriesOf(found)).value) == multiset(xs)
    decreases |found|
  {
    if |found| == 0 {
      NoneBuilt(built, xs);
    } else {
      var others, ys, x := TakeOut(parse, found, built, xs);
      DecodesTo(parse, found[1..], others, ys);
      assert EntriesOf(found)[1..] == EntriesOf(found[1..]);
    }
  }

  /** The first record found, and what it decodes to, taken out of what was built. */
  lemma TakeOut<T>(parse: Entry -> Result<T>, found: seq<Record>, built: seq<Record>, xs: seq<T>)
    returns (others: seq<Record>, ys: seq<T>, x: T)
    requires |found| > 0 && multiset(found) == multiset(built) && |built| == |xs|
    requires forall i :: 0 <= i < |xs| ==> parse(EntryOf(built[i])) == Ok(xs[i])
    ensures multiset(found[1..]) == multiset(others) && |others| == |ys|
    ensures forall i :: 0 <= i < |ys| ==> parse(EntryOf(others[i])) == Ok(ys[i])
    ensures parse(EntryOf(found[0])) == Ok(x) && multiset(xs) == multiset(ys) + multiset{x}
  {
    hide EntryOf;
    var i := IndexOf(found, built);
    others, ys, x := built[..i] + built[i + 1..], xs[..i] + xs[i + 1..], xs[i];
    Without(found, 0);
    Without(built, i);
    Without(xs, i);
    assert found[..0] + found[1..] == found[1..];
    Cancel(multiset(found[1..]), multiset(others), found[0]);
    OthersDecode(parse, built, xs, i);
  }

  lemma OthersDecode<T>(parse: Entry -> Result<T>, built: seq<Record>, xs: seq<T>, i: nat)
    requires |built| == |xs| && i < |xs| && forall j :: 0 <= j < |xs| ==> parse(EntryOf(built[j])) == Ok(xs[j])
    ensures var others, ys := built[..i] + built[i + 1..], xs[..i] + xs[i + 1..];
            |others| == |ys| && forall j :: 0 <= j < |ys| ==> parse(EntryOf(others[j])) == Ok(ys[j])
  {
    hide EntryOf;
  }

  lemma IndexOf(found: seq<Record>, built: seq<Record>) returns (i: nat)
    requires |found| > 0 && multiset(found) == multiset(built)
    ensures i < |built| && built[i] == found[0]
  {
    assert found[0] in multiset(built);
    i :| i < |built| && built[i] == found[0];
  }

  lemma Without<T>(s: seq<T>, i: nat)
    requires i < |s|
    ensures multiset(s) == multiset(s[..i] + s[i + 1..]) + multiset{s[i]}
  {
    assert s == s[..i] + [s[i]] + s[i + 1..];
  }

  lemma Cancel<T>(a: multiset<T>, b: multiset<T>, x: T)
    requires a + multiset{x} == b + multiset{x}
    ensures a == b
  {
    assert a == (a + multiset{x}) - multiset{x};
    assert b == (b + multiset{x}) - multiset{x};
  }

  lemma NoneBuilt<T>(built: seq<Record>, xs: seq<T>)
    requires multiset(built) == multiset([]) && |built| == |xs|
    ensures xs == []
  {
    assert |built| == |multiset(built)|;
  }

  /** A query that parses every matching record returns what was built, in some order, nothing more. */
  lemma CollectsBuilt<T>(v: OpenVolume, mt: Tree, recs: seq<Record>, id: nat, rtype: nat,
                             parse: Entry -> Result<T>, xs: seq<T>)
    requires HoldsRecords(v, mt, recs)
    requires var built := SelectRecords(recs, id, rtype);
             |built| == |xs| && forall i :: 0 <= i < |xs| ==> parse(EntryOf(built[i])) == Ok(xs[i])
    ensures var r := ParseAll(parse, Select(EntriesOf(Sort(recs)), id, rtype));
            r.Ok? && multiset(r.value) == multiset(xs)
  {
    hide FsTree, Sortable;
    SelectSorted(recs, id, rtype);
    SelectEntries(Sort(recs), id, rtype);
    DecodesTo(parse, SelectRecords(Sort(recs), id, rtype), SelectRecords(recs, id, rtype), xs);
  }

  // ---------- inodes, directories, plain files ----------

  /** An inserted inode is found, with every field the writer gave it. */
  lemma InodeReadsBack(v: OpenVolume, mt: Tree, recs: seq<Record>, s: InodeSpec)
    requires HoldsRecords(v, mt, recs) && s.Typed() && s.id < P60
    requires |s.name| + 1 < U16 && 0 !in s.name
    requires SelectRecords(recs, s.id, APFS_TYPE_INODE) == [BuildInode(s)]
    ensures InodeQuery(v, s.id) == Ok(Expected(s))
  {
    hide FsTree, Sortable, BuildInode, ParsedInode, Expected, InodeQuery, KeyHeader;
    SelectSorted(recs, s.id, APFS_TYPE_INODE);
    SelectEntries(Sort(recs), s.id, APFS_TYPE_INODE);
    OneElement(SelectRecords(Sort(recs), s.id, APFS_TYPE_INODE), BuildInode(s));
    InodeIsFirst(v, mt, Leaf(EntriesOf(Sort(recs))), s.id);
    InodeRoundTrip(s);
  }

  datatype ChildSpec = ChildSpec(name: CodePoints, fileId: nat, dtype: nat, times: nat) {
    ghost predicate Typed() {
      fileId < U64 && times < U64 && dtype < 16 && Utf8Len(name) <= 1022 && 0 !in name
    }

    function Listed(): DirEntry {
      DirEntry(Utf8(name), fileId, times, dtype)
    }
  }

  /** A listing returns exactly the inserted children. */
  lemma ListingReadsBack(v: OpenVolume, mt: Tree, recs: seq<Record>, dirId: nat, kids: seq<ChildSpec>, caseFold: bool)
    requires HoldsRecords(v, mt, recs) && dirId < P60 && (v.incompat % 2 == 1 || v.incompat / 8 % 2 == 1)
    requires forall i :: 0 <= i < |kids| ==> kids[i].Typed()
    requires SelectRecords(recs, dirId, APFS_TYPE_DIR_REC) == DrecsOf(dirId, kids, caseFold)
    ensures DirQuery(v, dirId).Ok?
    ensures multiset(DirQuery(v, dirId).value) == multiset(seq(|kids|, i requires 0 <= i < |kids| => kids[i].Listed()))
  {
    hide FsTree, Sortable, ParseDrec, BuildDrec, DirQuery, SelectRecords, Select;
    var xs := seq(|kids|, i requires 0 <= i < |kids| => kids[i].Listed());
    forall i | 0 <= i < |kids|
      ensures DirEntryOf(true)(EntryOf(DrecsOf(dirId, kids, caseFold)[i])) == Ok(xs[i])
    {
      DrecValueRoundTrip(dirId, kids[i].name, caseFold, kids[i].fileId, kids[i].dtype, kids[i].times);
    }
    CollectsBuilt(v, mt, recs, dirId, APFS_TYPE_DIR_REC, DirEntryOf(true), xs);
    ListingIsSelect(v, mt, Leaf(EntriesOf(Sort(recs))), dirId);
  }

  ghost function DrecsOf(dirId: nat, kids: seq<ChildSpec>, caseFold: bool): (r: seq<Record>)
    requires dirId < U64
    ensures |r| == |kids|
  {
    seq(|kids|, i requires 0 <= i < |kids| =>
      BuildDrec(dirId, kids[i].name, caseFold, kids[i].fileId, kids[i].dtype, kids[i].times))
  }

  ghost function ExtentRecords(id: nat, exts: seq<FileExtent>): (r: seq<Record>)
    requires id < U64
    ensures |r| == |exts|
  {
    seq(|exts|, i requires 0 <= i < |exts| =>
      BuildFileExtent(id, exts[i].logicalAddr, exts[i].lenBytes, exts[i].physBlock))
  }

  ghost predicate ExtentTyped(e: FileExtent) {
    e.logicalAddr < U64 && e.lenBytes < P56 && e.physBlock < U64
  }

  /** The extents of a stream read back, exactly the inserted ones. */
  lemma ExtentsReadBack(v: OpenVolume, mt: Tree, recs: seq<Record>, id: nat, exts: seq<FileExtent>)
    requires HoldsRecords(v, mt, recs) && id < P60
    requires forall i :: 0 <= i < |exts| ==> ExtentTyped(exts[i])
    requires SelectRecords(recs, id, APFS_TYPE_FILE_EXTENT) == ExtentRecords(id, exts)
    ensures ExtentsQuery(v, id).Ok? && multiset(ExtentsQuery(v, id).value) == multiset(exts)
  {
    hide FsTree, Sortable, ParseFileExtent, BuildFileExtent, ExtentsQuery, SelectRecords, Select;
    forall i | 0 <= i < |exts|
      ensures ExtentOf()(EntryOf(ExtentRecords(id, exts)[i])) == Ok(exts[i])
    {
      FileExtentRoundTrip(id, exts[i].logicalAddr, exts[i].lenBytes, exts[i].physBlock);
    }
    CollectsBuilt(v, mt, recs, id, APFS_TYPE_FILE_EXTENT, ExtentOf(), exts);
    ExtentsAreSelect(v, mt, Leaf(EntriesOf(Sort(recs))), id);
  }

  /** A plain file whose disjoint extents were inserted in any order reads as the sparse file they describe. */
  lemma PlainFileReadsBack(v: OpenVolume, mt: Tree, recs: seq<Record>, z: Zlib, ino: Inode, exts: seq<FileExtent>, offset: nat, n: nat)
    requires HoldsRecords(v, mt, recs) && ino.privateId < P60 && !ino.IsDir() && !ino.IsCompressed()
    requires forall i :: 0 <= i < |exts| ==> ExtentTyped(exts[i])
    requires Disjoint(exts) && SelectRecords(recs, ino.privateId, APFS_TYPE_FILE_EXTENT) == ExtentRecords(ino.privateId, exts)
    ensures FileContent(v, z, ino, offset, n) == FileSlice(v.dev, v.bs, exts, ino.size, offset, n)
  {
    hide HoldsRecords, SelectRecords, ExtentsQuery, Disjoint;
    ExtentsReadBack(v, mt, recs, ino.privateId, exts);
    var found := ExtentsQuery(v, ino.privateId).value;
    forall e
      ensures e in exts <==> e in found
    {
      assert e in exts <==> e in multiset(exts);
      assert e in found <==> e in multiset(found);
    }
    OrderIsIrrelevant(v.dev, v.bs, exts, found, ino.size, offset, n);
    if offset >= ino.size {
      assert Window(v.dev, v.bs, exts, offset, 0) == [];
    }
  }

  // ---------- attributes and compressed files ----------

  /** Among records of readable names, the one wanted is found wherever it lies. */
  lemma {:induction false} FirstNamedIs(found: seq<Record>, name: Bytes, value: XattrValue)
    requires forall r :: r in found ==> XattrName(r.key).Ok?
    requires forall r :: r in found && XattrName(r.key) == Ok(name) ==> ParseXattr(Some(r.val)) == Ok(value)
    requires exists r :: r in found && XattrName(r.key) == Ok(name)
    ensures FirstNamed(EntriesOf(found), name) == Ok(Some(value))
  {
    hide XattrName, ParseXattr;
    assert EntriesOf(found)[1..] == EntriesOf(found[1..]);
    if XattrName(found[0].key) != Ok(name) {
      assert found == [found[0]] + found[1..];
      FirstNamedIs(found[1..], name, value);
    }
  }

  /** A stream-backed attribute reads back as its stream's id and size. */
  lemma StreamXattrRoundTrip(id: nat, name: Bytes, objId: nat, size: nat, rest: Bytes)
    requires id < P60 && objId < U64 && size < U64
    ensures ParseXattr(Some(BuildNamedXattr(id, name, 1, LE(objId, 8) + LE(size, 8) + rest).val)) == Ok(Stream(objId, size))
  {
    hide ReadLE, LE;
    var xdata := LE(objId, 8) + LE(size, 8) + rest;
    XattrHeader(1, xdata);
    var pre := LE(1, 2) + LE(|xdata|, 2);
    TwoFieldsBehind(pre, objId, size, rest);
    assert pre + xdata == LE(1, 2) + LE(|xdata|, 2) + xdata;
  }

  lemma TwoFieldsBehind(pre: Bytes, a: nat, b: nat, rest: Bytes)
    requires a < U64 && b < U64
    ensures var v := pre + (LE(a, 8) + LE(b, 8) + rest);
            ReadLE(v, |pre|, 8) == Ok(a) && ReadLE(v, |pre| + 8, 8) == Ok(b)
  {
    hide LE, Field;
    var v := pre + (LE(a, 8) + LE(b, 8) + rest);
    assert v == pre + LE(a, 8) + (LE(b, 8) + rest);
    Field8At(pre, a, LE(b, 8) + rest);
    assert v == (pre + LE(a, 8)) + LE(b, 8) + rest;
    Field8At(pre + LE(a, 8), b, rest);
  }

  /** The two attributes of a file compressed into a resource fork. */
  ghost function ForkAttributes(id: nat, size: nat, streamId: nat, forkLen: nat, rest: Bytes): seq<Record>
    requires id < U64
  {
    [BuildNamedXattr(id, XATTR_DECMPFS, 2, DecmpfsHeader(TYPE_ZLIB_RSRC, size)),
     BuildNamedXattr(id, XATTR_RESOURCE_FORK, 1, LE(streamId, 8) + LE(forkLen, 8) + rest)]
  }

  lemma AttributesReadBack(v: OpenVolume, mt: Tree, recs: seq<Record>, id: nat, size: nat, streamId: nat, forkLen: nat, rest: Bytes)
    requires HoldsRecords(v, mt, recs) && id < P60 && streamId < U64 && forkLen < U64
    requires SelectRecords(recs, id, APFS_TYPE_XATTR) == ForkAttributes(id, size, streamId, forkLen, rest)
    ensures XattrQuery(v, id, XATTR_DECMPFS) == Ok(Some(Embedded(DecmpfsHeader(TYPE_ZLIB_RSRC, size))))
    ensures XattrQuery(v, id, XATTR_RESOURCE_FORK) == Ok(Some(Stream(streamId, forkLen)))
  {
    hide FsTree, Sortable, XattrQuery, SelectRecords, Select, FirstNamed, XattrName, ParseXattr, BuildNamedXattr, DecmpfsHeader, LE;
    var built := ForkAttributes(id, size, streamId, forkLen, rest);
    var found := SelectRecords(Sort(recs), id, APFS_TYPE_XATTR);
    SelectSorted(recs, id, APFS_TYPE_XATTR);
    SelectEntries(Sort(recs), id, APFS_TYPE_XATTR);
    SameElements(found, built);
    NamesReadBack(id, DecmpfsHeader(TYPE_ZLIB_RSRC, size), LE(streamId, 8) + LE(forkLen, 8) + rest);
    StreamXattrRoundTrip(id, XATTR_RESOURCE_FORK, streamId, forkLen, rest);
    assert built[0] in found && built[1] in found;
    FirstNamedIs(found, XATTR_DECMPFS, Embedded(DecmpfsHeader(TYPE_ZLIB_RSRC, size)));
    FirstNamedIs(found, XATTR_RESOURCE_FORK, Stream(streamId, forkLen));
    XattrIsFirstNamed(v, mt, Leaf(EntriesOf(Sort(recs))), id, XATTR_DECMPFS);
    XattrIsFirstNamed(v, mt, Leaf(EntriesOf(Sort(recs))), id, XATTR_RESOURCE_FORK);
  }

  lemma NamesReadBack(id: nat, header: Bytes, stream: Bytes)
    requires id < P60 && |header| < U16
    ensures var a, b := BuildNamedXattr(id, XATTR_DECMPFS, 2, header), BuildNamedXattr(id, XATTR_RESOURCE_FORK, 1, stream);
            && XattrName(a.key) == Ok(XATTR_DECMPFS) && XattrName(b.key) == Ok(XATTR_RESOURCE_FORK)
            && ParseXattr(Some(a.val)) == Ok(Embedded(header))
    ensures XATTR_DECMPFS != XATTR_RESOURCE_FORK
  {
    hide XattrName, ParseXattr, BuildNamedXattr;
    XattrRoundTrip(id, XATTR_DECMPFS, 2, header);
    XattrKey(id, XATTR_RESOURCE_FORK, 1, stream);
  }

  /** The device holds `data` from block `blk` on. */
  ghost predicate OnDevice(v: OpenVolume, blk: nat, data: Bytes) {
    blk * v.bs + |data| <= |v.dev| && v.dev[blk * v.bs..blk * v.bs + |data|] == data
  }

  /** Stream `id` is `data`, in one extent of `len` bytes at block `blk`. */
  ghost predicate StreamStored(v: OpenVolume, recs: seq<Record>, id: nat, len: nat, blk: nat, data: Bytes) {
    && id < P60 && |data| <= len < P56 && 0 < blk < U64 && OnDevice(v, blk, data)
    && SelectRecords(recs, id, APFS_TYPE_FILE_EXTENT) == ExtentRecords(id, [FileExtent(0, len, blk)])
  }

  /** A stream in one extent that the device holds reads back whole. */
  lemma OneExtentStream(v: OpenVolume, mt: Tree, recs: seq<Record>, id: nat, len: nat, blk: nat, data: Bytes)
    requires HoldsRecords(v, mt, recs) && StreamStored(v, recs, id, len, blk, data)
    ensures StreamContent(v, id, |data|) == Ok(data)
  {
    hide HoldsRecords, SelectRecords, ExtentsQuery, FileSlice;
    var exts := [FileExtent(0, len, blk)];
    ExtentsReadBack(v, mt, recs, id, exts);
    var found := ExtentsQuery(v, id).value;
    OneElement(found, exts[0]);
    OneExtent(v.dev, v.bs, len, blk, data);
  }

  lemma OneElement<T>(found: seq<T>, x: T)
    requires multiset(found) == multiset([x])
    ensures found == [x]
  {
    assert |found| == |multiset(found)|;
    assert found[0] in multiset(found);
  }

  lemma OneExtent(dev: Bytes, bs: nat, len: nat, blk: nat, data: Bytes)
    requires |data| <= len && 0 < blk && blk * bs + |data| <= |dev| && dev[blk * bs..blk * bs + |data|] == data
    ensures FileSlice(dev, bs, [FileExtent(0, len, blk)], |data|, 0, |data|) == Ok(data)
  {
    var exts := [FileExtent(0, len, blk)];
    forall pos | 0 <= pos < |data|
      ensures SparseByte(dev, bs, exts, pos) == data[pos]
    {
      assert Stores(exts[0], pos);
      assert dev[blk * bs..blk * bs + |data|][pos] == dev[blk * bs + pos];
    }
    assert Window(dev, bs, exts, 0, |data|) == data;
  }

  /** File `id` is `content` compressed into a resource fork, its stream stored. */
  ghost predicate ForkStored(v: OpenVolume, recs: seq<Record>, z: Zlib, id: nat, content: Bytes,
                             streamId: nat, len: nat, blk: nat, rest: Bytes) {
    && id < P60 && |content| < U64 && OffsetsFit(Streams(z, content, BlockCount(|content|)))
    && var fork := Fork(Streams(z, content, BlockCount(|content|)));
    && StreamStored(v, recs, streamId, len, blk, fork)
    && SelectRecords(recs, id, APFS_TYPE_XATTR) == ForkAttributes(id, |content|, streamId, |fork|, rest)
  }

  /** A file compressed into a resource fork: with its attributes and its stream's extent inserted and the
      fork on the device, any read of it is that slice of the content. */
  lemma CompressedFileReadsBack(v: OpenVolume, mt: Tree, recs: seq<Record>, z: Zlib, ino: Inode, content: Bytes,
                                streamId: nat, len: nat, blk: nat, rest: Bytes, offset: nat, n: nat)
    requires HoldsRecords(v, mt, recs) && z.Lawful() && !ino.IsDir() && ino.IsCompressed()
    requires ForkStored(v, recs, z, ino.id, content, streamId, len, blk, rest)
    ensures FileContent(v, z, ino, offset, n) == Ok(Slice(content, offset, n))
  {
    hide HoldsRecords, SelectRecords, XattrQuery, StreamContent, CompressedSlice, Fork, Streams, OffsetsFit, DecmpfsHeader, Slice, ForkAttributes, ExtentRecords, OnDevice;
    var fork := Fork(Streams(z, content, BlockCount(|content|)));
    AttributesReadBack(v, mt, recs, ino.id, |content|, streamId, |fork|, rest);
    OneExtentStream(v, mt, recs, streamId, len, blk, fork);
    ForkFileRoundTrip(z, content, offset, n);
  }

  // ---------- symbolic links ----------

  /** A link's target, inserted as its attribute, reads back up to its first NUL: whole exactly when it
      holds none. */
  lemma LinkReadsBack(v: OpenVolume, mt: Tree, recs: seq<Record>, ino: Inode, target: Bytes)
    requires HoldsRecords(v, mt, recs) && ino.id < P60 && ino.IsSymlink() && |target| + 1 < U16
    requires SelectRecords(recs, ino.id, APFS_TYPE_XATTR) == [BuildSymlinkXattr(ino.id, target)]
    ensures LinkTarget(v, ino) == Ok(CutAtNul(target + [0]))
    ensures LinkTarget(v, ino) == Ok(target) <==> 0 !in target
  {
    hide FsTree, Sortable, XattrQuery, SelectRecords, Select, FirstNamed, XattrName, ParseXattr, BuildNamedXattr, CutAtNul;
    var built := BuildSymlinkXattr(ino.id, target);
    var found := SelectRecords(Sort(recs), ino.id, APFS_TYPE_XATTR);
    SelectSorted(recs, ino.id, APFS_TYPE_XATTR);
    SelectEntries(Sort(recs), ino.id, APFS_TYPE_XATTR);
    OneElement(found, built);
    XattrRoundTrip(ino.id, XATTR_SYMLINK, 6, target + [0]);
    FirstNamedIs(found, XATTR_SYMLINK, Embedded(target + [0]));
    XattrIsFirstNamed(v, mt, Leaf(EntriesOf(Sort(recs))), ino.id, XATTR_SYMLINK);
    CutTerminated(target);
  }

  // ---------- what kind of file an inode is ----------

  /** The mode and flags the writer gave an inode decide what the reader takes it for. */
  lemma KindIsMode(s: InodeSpec)
    requires s.Typed()
    ensures Expected(s).IsDir() <==> 0x4000 <= s.mode < 0x5000
    ensures Expected(s).IsSymlink() <==> 0xA000 <= s.mode < 0xB000
    ensures Expected(s).IsCompressed() <==> s.bsdFlags % 0x40 >= 0x20
  {
    var f := s.bsdFlags;
    assert f % 0x40 == 0x20 * (f / 0x20 % 2) + f % 0x20;
  }

  /** An inserted directory is found, and reads neither as a file nor as a link. */
  lemma DirectoryReadsBack(v: OpenVolume, mt: Tree, recs: seq<Record>, s: InodeSpec, z: Zlib, offset: nat, n: nat)
    requires HoldsRecords(v, mt, recs) && s.Typed() && s.id < P60 && 0x4000 <= s.mode < 0x5000
    requires |s.name| + 1 < U16 && 0 !in s.name
    requires SelectRecords(recs, s.id, APFS_TYPE_INODE) == [BuildInode(s)]
    ensures InodeQuery(v, s.id) == Ok(Expected(s))
    ensures FileContent(v, z, Expected(s), offset, n) == Err(IsADirectory) && LinkTarget(v, Expected(s)) == Err(Parse)
  {
    hide HoldsRecords, SelectRecords, InodeQuery, BuildInode, Expected;
    InodeReadsBack(v, mt, recs, s);
    KindIsMode(s);
  }

  /** An inserted link is found, and its target, inserted as an attribute, is read: whole exactly when it
      holds no NUL. */
  lemma LinkFileReadsBack(v: OpenVolume, mt: Tree, recs: seq<Record>, s: InodeSpec, target: Bytes)
    requires HoldsRecords(v, mt, recs) && s.Typed() && s.id < P60 && 0xA000 <= s.mode < 0xB000
    requires |s.name| + 1 < U16 && 0 !in s.name && |target| + 1 < U16
    requires SelectRecords(recs, s.id, APFS_TYPE_INODE) == [BuildInode(s)]
    requires SelectRecords(recs, s.id, APFS_TYPE_XATTR) == [BuildSymlinkXattr(s.id, target)]
    ensures InodeQuery(v, s.id) == Ok(Expected(s))
    ensures LinkTarget(v, Expected(s)) == Ok(target) <==> 0 !in target
  {
    hide HoldsRecords, SelectRecords, InodeQuery, BuildInode, LinkTarget, BuildSymlinkXattr;
    InodeReadsBack(v, mt, recs, s);
    KindIsMode(s);
    LinkReadsBack(v, mt, recs, Expected(s), target);
  }

  /** What was not inserted is not found. */
  lemma AbsentIsNotFound(v: OpenVolume, mt: Tree, recs: seq<Record>, id: nat, name: Bytes)
    requires HoldsRecords(v, mt, recs)
    ensures SelectRecords(recs, id, APFS_TYPE_INODE) == [] ==> InodeQuery(v, id) == Err(NotFound)
    ensures SelectRecords(recs, id, APFS_TYPE_XATTR) == [] ==> XattrContent(v, id, name) == Err(NotFound)
  {
    hide FsTree, Sortable, InodeQuery, XattrQuery, SelectRecords, Select;
    if SelectRecords(recs, id, APFS_TYPE_INODE) == [] {
      NoneSelected(recs, id, APFS_TYPE_INODE);
      InodeIsFirst(v, mt, Leaf(EntriesOf(Sort(recs))), id);
    }
    if SelectRecords(recs, id, APFS_TYPE_XATTR) == [] {
      NoneSelected(recs, id, APFS_TYPE_XATTR);
      XattrIsFirstNamed(v, mt, Leaf(EntriesOf(Sort(recs))), id, name);
    }
  }

  lemma NoneSelected(recs: seq<Record>, id: nat, rtype: nat)
    requires AllSortable(recs) && SelectRecords(recs, id, rtype) == []
    ensures Select(EntriesOf(Sort(recs)), id, rtype) == []
  {
    hide Sortable, Sort, SelectRecords, Select;
    SelectSorted(recs, id, rtype);
    SelectEntries(Sort(recs), id, rtype);
    var found := SelectRecords(Sort(recs), id, rtype);
    assert |found| == |multiset(found)|;
  }
}
