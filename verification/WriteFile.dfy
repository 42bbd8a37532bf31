/** A file written by the writer and read by the reader, on one image: blocks allocated, data written,
    records inserted (`main` of `apfs-fixture`), and a volume over the resulting device read back. */
module WriteFile {
  import opened Bytes
  import opened Checksum
  import opened Container
  import opened BTreeTheory
  import opened NodeWriter
  import opened NodeRoundTrip
  import opened Omap
  import opened Records
  import opened Inodes
  import opened Sorting
  import opened FileRead
  import opened RsrcWriter
  import opened Spaceman
  import opened Volume
  import opened EndToEnd
  import opened ReadBack

  function BlocksFor(n: nat): nat {
    (n + BS - 1) / BS
  }

  /** Blocks outside `start..start + count` are as they were. */
  ghost predicate RestKept(was: Bytes, now: Bytes, start: nat, count: nat) {
    |now| == |was| &&
    forall m: nat :: (m + 1) * BS <= |was| && !(start <= m < start + count) ==> BlockIn(now, m) == BlockIn(was, m)
  }

  /** `write_data`: the data, zero-padded to whole blocks. */
  method WriteData(img: Image, blk: nat, data: Bytes)
    requires (blk + BlocksFor(|data|)) * BS <= |img.data|
    modifies img
    ensures RestKept(old(img.data), img.data, blk, BlocksFor(|data|))
    ensures img.data[blk * BS..blk * BS + |data|] == data
  {
    var padded := data + Zeros((BS - |data| % BS) % BS);
    PadFills(|data|);
    SplicedBlocks(img.data, blk, BlocksFor(|data|), data, padded);
    img.data := Splice(img.data, blk * BS, padded);
  }

  lemma PadFills(n: nat)
    ensures n + (BS - n % BS) % BS == BlocksFor(n) * BS
  {
  }

  lemma SplicedBlocks(was: Bytes, blk: nat, count: nat, data: Bytes, padded: Bytes)
    requires |padded| == count * BS && (blk + count) * BS <= |was| && |data| <= |padded| && padded[..|data|] == data
    ensures RestKept(was, Splice(was, blk * BS, padded), blk, count)
    ensures Splice(was, blk * BS, padded)[blk * BS..blk * BS + |data|] == data
  {
    hide Splice;
    var now := Splice(was, blk * BS, padded);
    SpliceReads(was, blk * BS, padded);
    SubSlice(now, blk * BS, blk * BS + |padded|, 0, |data|);
    forall m: nat | (m + 1) * BS <= |was| && !(blk <= m < blk + count)
      ensures BlockIn(now, m) == BlockIn(was, m)
    {
      assert (m + 1) * BS <= blk * BS || (blk + count) * BS <= m * BS;
    }
  }

  // ---------- a device whose volume has a one-leaf object map ----------

  /** `v` is a volume over the device `data`, its object map one leaf that sends the root's oid to block `root`. */
  ghost predicate Mounted(v: OpenVolume, data: Bytes, checked: bool, mt: Tree, root: nat) {
    && v.load == LoadChecked(data, BS, checked) && v.dev == data && v.bs == BS
    && OpenOmap(v.load, v.omapPaddr).Ok? && mt.Leaf? && Maps(OpenOmap(v.load, v.omapPaddr).value, mt)
    && Resolve(Flatten(mt), v.rootTreeOid, v.xid).Ok?
    && Resolve(Flatten(mt), v.rootTreeOid, v.xid).value.paddr == root
    && Resolve(Flatten(mt), v.rootTreeOid, v.xid).value.flags / 16 % 2 == 0
  }

  /** The block of the map's tree. */
  ghost function MapBlock(v: OpenVolume): nat {
    var om := OpenOmap(v.load, v.omapPaddr);
    if om.Ok? then om.value.treeOid else 0
  }

  /** The volume over another device. */
  function Over(v: OpenVolume, data: Bytes, checked: bool): OpenVolume {
    v.(load := LoadChecked(data, BS, checked), dev := data)
  }

  lemma LoadsBlock(data: Bytes, checked: bool, p: nat)
    requires (p + 1) * BS <= |data| < U64
    ensures LoadChecked(data, BS, checked)(p) == if Verify(BlockIn(data, p)) then Ok(BlockIn(data, p)) else Err(BadChecksum(p))
  {
    hide Verify;
  }

  /** A one-leaf map is settled by its tree's block. */
  lemma LeafMapMoves(a: ObjectMap, b: ObjectMap, mt: Tree)
    requires Maps(a, mt) && mt.Leaf? && b.treeOid == a.treeOid && b.load(b.treeOid) == a.load(a.treeOid)
    ensures Maps(b, mt)
  {
    hide NodeCodec.ParseNode, NodeCodec.ParseTreeInfo, NodeCodec.Present, OmapSource, Versions;
  }

  /** With the map's blocks kept and the root's block rewritten, the volume over the new device is mounted
      alike, its root being the new block. */
  lemma StaysMounted(v: OpenVolume, was: Bytes, now: Bytes, checked: bool, mt: Tree, root: nat)
    requires Mounted(v, was, checked, mt, root) && |was| == |now| < U64
    requires (v.omapPaddr + 1) * BS <= |was| && BlockIn(now, v.omapPaddr) == BlockIn(was, v.omapPaddr)
    requires (MapBlock(v) + 1) * BS <= |was| && BlockIn(now, MapBlock(v)) == BlockIn(was, MapBlock(v))
    requires (root + 1) * BS <= |was| && Verify(BlockIn(now, root))
    ensures Mounted(Over(v, now, checked), now, checked, mt, root)
    ensures RootBlockIs(Over(v, now, checked), mt, BlockIn(now, root))
    ensures MapBlock(Over(v, now, checked)) == MapBlock(v)
  {
    hide BlockIn, Verify, Maps, LoadChecked, Resolve, Flatten, Field;
    var w := Over(v, now, checked);
    LoadsBlock(was, checked, v.omapPaddr);
    LoadsBlock(now, checked, v.omapPaddr);
    LoadsBlock(was, checked, MapBlock(v));
    LoadsBlock(now, checked, MapBlock(v));
    LoadsBlock(now, checked, root);
    SameMap(v.load, w.load, v.omapPaddr);
    LeafMapMoves(OpenOmap(v.load, v.omapPaddr).value, OpenOmap(w.load, w.omapPaddr).value, mt);
  }

  lemma SameMap(a: Loader, b: Loader, paddr: nat)
    requires a(paddr) == b(paddr) && OpenOmap(a, paddr).Ok?
    ensures OpenOmap(b, paddr).Ok? && OpenOmap(b, paddr).value.treeOid == OpenOmap(a, paddr).value.treeOid
    ensures OpenOmap(a, paddr).value.load == a && OpenOmap(b, paddr).value.load == b
  {
    hide Field;
  }

  // ---------- allocate, write, insert ----------

  /** The metadata blocks lie inside the image, apart from one another where one is rewritten, and are used. */
  ghost predicate Places(space: Space, len: nat, sm: Spaceman, omap: nat, mapTree: nat, root: nat) {
    && space.total * BS <= len && (root + 1) * BS <= len && (omap + 1) * BS <= len && (mapTree + 1) * BS <= len
    && {0, root, omap, mapTree, sm.paddr, sm.cibPaddr, sm.bitmapPaddr} <= space.used
    && root !in {0, omap, mapTree, sm.paddr, sm.cibPaddr, sm.bitmapPaddr}
    && omap !in {sm.paddr, sm.cibPaddr, sm.bitmapPaddr} && mapTree !in {sm.paddr, sm.cibPaddr, sm.bitmapPaddr}
  }

  lemma PlacesStay(a: Space, count: nat, start: nat, b: Space, len: nat, sm: Spaceman, omap: nat, mapTree: nat, root: nat)
    requires Places(a, len, sm, omap, mapTree, root) && Allocates(a, count, start, b)
    ensures Places(b, len, sm, omap, mapTree, root)
  {
  }

  /** An image the writer may edit, with a volume mounted on it. */
  ghost predicate Ready(img: Image, sm: Spaceman, v: OpenVolume, checked: bool, mt: Tree, root: nat)
    reads img
  {
    && Separate(img, sm) && |img.data| < P56 && Mounted(v, img.data, checked, mt, root)
    && Places(SpaceIn(img, sm), |img.data|, sm, v.omapPaddr, MapBlock(v), root)
  }

  /** The root's block is a leaf, and holds nothing of file `id` yet; nor do the other added records. */
  ghost predicate NewFile(b: Bytes, root: nat, others: seq<Record>, id: nat) {
    && CanSort(b, root, others) && ParsedImage(b, root).Ok?
    && LeafShaped(b, ParsedImage(b, root).value) && ParsedImage(b, root).value.isRoot
    && var recs := ParsedImage(b, root).value.records + others;
    && SelectRecords(recs, id, APFS_TYPE_INODE) == [] && SelectRecords(recs, id, APFS_TYPE_FILE_EXTENT) == []
  }

  /** A plain file of this content, as the writer describes it. */
  ghost predicate PlainSpec(s: InodeSpec, data: Bytes) {
    && s.Typed() && s.id < P60 && |s.name| + 1 < U16 && 0 !in s.name
    && s.hasDstream && s.size == |data| > 0 && s.bsdFlags / UF_COMPRESSED % 2 == 0 && s.mode / 0x1000 % 16 == 8
  }

  /** The records of a file whose data lies at block `start`. */
  function FileRecords(s: InodeSpec, data: Bytes, start: nat, others: seq<Record>): seq<Record>
    requires s.id < U64
  {
    others + [BuildInode(s), BuildFileExtent(s.id, 0, BlocksFor(|data|) * BS, start)]
  }

  /** The file is found by its id, and any read of it is that slice of the data. */
  ghost predicate FileReads(v: OpenVolume, s: InodeSpec, data: Bytes) {
    InodeQuery(v, s.id) == Ok(Expected(s)) &&
    forall z, offset, n :: FileContent(v, z, Expected(s), offset, n) == Ok(Slice(data, offset, n))
  }

  lemma RecordsSortable(s: InodeSpec, data: Bytes, start: nat, others: seq<Record>, b: Bytes, root: nat)
    requires CanSort(b, root, others) && s.id < P60
    ensures CanSort(b, root, FileRecords(s, data, start, others))
  {
    hide ParsedImage, BuildInode, BuildFileExtent, Sortable;
    BuiltSortable(s, BlocksFor(|data|) * BS, start);
  }

  lemma BuiltSortable(s: InodeSpec, len: nat, start: nat)
    requires s.id < P60
    ensures Sortable(BuildInode(s)) && Sortable(BuildFileExtent(s.id, 0, len, start))
  {
    hide LE, Field, JkeyHeader, FixedBytes, XHeader, XData;
    KeyHeaderOf(s.id, APFS_TYPE_INODE, []);
    assert BuildInode(s).key == Jkey(s.id, APFS_TYPE_INODE) + [];
  }

  /** Among the node's records and the added ones, the file's are the two built for it. */
  lemma FileSelected(recs: seq<Record>, s: InodeSpec, data: Bytes, start: nat)
    requires s.id < P60
    requires SelectRecords(recs, s.id, APFS_TYPE_INODE) == [] && SelectRecords(recs, s.id, APFS_TYPE_FILE_EXTENT) == []
    ensures var all := recs + [BuildInode(s), BuildFileExtent(s.id, 0, BlocksFor(|data|) * BS, start)];
            && SelectRecords(all, s.id, APFS_TYPE_INODE) == [BuildInode(s)]
            && SelectRecords(all, s.id, APFS_TYPE_FILE_EXTENT) ==
               ExtentRecords(s.id, [FileExtent(0, BlocksFor(|data|) * BS, start)])
  {
    hide BuildInode, BuildFileExtent, SelectRecords, KeyHeader;
    var a, b := BuildInode(s), BuildFileExtent(s.id, 0, BlocksFor(|data|) * BS, start);
    BuiltHeaders(s, BlocksFor(|data|) * BS, start);
    forall t: nat
      ensures SelectRecords(recs + [a, b], s.id, t) == SelectRecords(recs, s.id, t) + SelectRecords([a, b], s.id, t)
    {
      SelectAppend(recs, [a, b], s.id, t);
    }
    SelectPair(a, b, s.id, APFS_TYPE_INODE);
    SelectPair(a, b, s.id, APFS_TYPE_FILE_EXTENT);
  }

  lemma BuiltHeaders(s: InodeSpec, len: nat, start: nat)
    requires s.id < P60
    ensures KeyHeader(BuildInode(s).key) == Ok((s.id, APFS_TYPE_INODE))
    ensures KeyHeader(BuildFileExtent(s.id, 0, len, start).key) == Ok((s.id, APFS_TYPE_FILE_EXTENT))
  {
    hide LE, Field, KeyHeader, JkeyHeader, FixedBytes, XHeader, XData;
    KeyHeaderOf(s.id, APFS_TYPE_INODE, []);
    assert BuildInode(s).key == Jkey(s.id, APFS_TYPE_INODE) + [];
    KeyHeaderOf(s.id, APFS_TYPE_FILE_EXTENT, LE(0, 8));
  }

  lemma SelectPair(a: Record, b: Record, id: nat, rtype: nat)
    ensures SelectRecords([a, b], id, rtype) ==
            (if KeyHeader(a.key) == Ok((id, rtype)) then [a] else []) + (if KeyHeader(b.key) == Ok((id, rtype)) then [b] else [])
  {
    hide KeyHeader;
    var recs := [a, b];
    var tail := recs[1..];
    assert tail == [b] && tail[1..] == recs[2..];
    SelectStep(recs, id, rtype);
    SelectStep(tail, id, rtype);
    SelectNone(id, rtype);
  }

  // ---------- reading the file back ----------

  /** A stored inode and extent, and the data where the extent says, make the file read. */
  lemma StoredFileReads(v: OpenVolume, mt: Tree, recs: seq<Record>, s: InodeSpec, data: Bytes, start: nat)
    requires HoldsRecords(v, mt, recs) && PlainSpec(s, data) && v.bs == BS
    requires 0 < start < U64 && BlocksFor(|data|) * BS < P56 && OnDevice(v, start, data)
    requires SelectRecords(recs, s.id, APFS_TYPE_INODE) == [BuildInode(s)]
    requires SelectRecords(recs, s.id, APFS_TYPE_FILE_EXTENT) == ExtentRecords(s.id, [FileExtent(0, BlocksFor(|data|) * BS, start)])
    ensures FileReads(v, s, data)
  {
    hide HoldsRecords, SelectRecords, InodeQuery, BuildInode, ExtentRecords, FileContent, FileSlice, Slice;
    InodeReadsBack(v, mt, recs, s);
    PlainInode(s, data);
    var ino, exts := Expected(s), [FileExtent(0, BlocksFor(|data|) * BS, start)];
    forall z, offset, n
      ensures FileContent(v, z, ino, offset, n) == Ok(Slice(data, offset, n))
    {
      PlainFileReadsBack(v, mt, recs, z, ino, exts, offset, n);
      ExtentSlices(v, data, start, offset, n);
    }
  }

  lemma PlainInode(s: InodeSpec, data: Bytes)
    requires PlainSpec(s, data)
    ensures var ino := Expected(s);
            !ino.IsDir() && !ino.IsCompressed() && ino.privateId == s.id && ino.size == |data|
  {
  }

  lemma ExtentSlices(v: OpenVolume, data: Bytes, start: nat, offset: nat, n: nat)
    requires 0 < start && OnDevice(v, start, data)
    ensures FileSlice(v.dev, v.bs, [FileExtent(0, BlocksFor(|data|) * BS, start)], |data|, offset, n) == Ok(Slice(data, offset, n))
  {
    hide FileSlice;
    OneExtent(v.dev, v.bs, BlocksFor(|data|) * BS, start, data);
    ReadIsSlice(v.dev, v.bs, [FileExtent(0, BlocksFor(|data|) * BS, start)], |data|, offset, n);
  }

  /** Bytes of blocks that are kept are kept. */
  lemma SameBlocksSameBytes(a: Bytes, b: Bytes, start: nat, count: nat, n: nat)
    requires |a| == |b| && (start + count) * BS <= |a| && n <= count * BS
    requires forall m: nat :: start <= m < start + count ==> BlockIn(a, m) == BlockIn(b, m)
    ensures a[start * BS..start * BS + n] == b[start * BS..start * BS + n]
  {
    forall i | start * BS <= i < start * BS + n
      ensures a[i] == b[i]
    {
      var m := i / BS;
      assert start <= m < start + count;
      assert a[i] == BlockIn(a, m)[i % BS] && b[i] == BlockIn(b, m)[i % BS];
    }
  }

  /** No used block lies in an allocated range. */
  lemma Spared(a: Space, count: nat, start: nat, b: Space, p: nat)
    requires Allocates(a, count, start, b) && p in a.used
    ensures p < start || start + count <= p
  {
    assert p !in Range(start, count);
  }

  lemma RangeInside(a: Space, count: nat, start: nat, b: Space)
    requires Allocates(a, count, start, b)
    ensures count > 0 && start + count <= a.total
  {
    assert start + count - 1 in Range(start, count);
  }

  /** The image before the file, after its blocks were allocated, after its data was written, and after its
      records were inserted. */
  ghost predicate Steps(d0: Bytes, d1: Bytes, d2: Bytes, d3: Bytes, sm: Spaceman, start: nat, count: nat, root: nat) {
    && OthersKept(d0, d1, sm) && RestKept(d1, d2, start, count) && |d3| == |d2|
    && forall m: nat :: m != root && (m + 1) * BS <= |d2| ==> BlockIn(d3, m) == BlockIn(d2, m)
  }

  lemma KeptThroughout(d0: Bytes, d1: Bytes, d2: Bytes, d3: Bytes, sm: Spaceman, start: nat, count: nat, root: nat, p: nat)
    requires Steps(d0, d1, d2, d3, sm, start, count, root) && (p + 1) * BS <= |d0|
    requires p !in {sm.paddr, sm.cibPaddr, sm.bitmapPaddr} && !(start <= p < start + count)
    ensures BlockIn(d2, p) == BlockIn(d0, p) && (p != root ==> BlockIn(d3, p) == BlockIn(d0, p))
  {
    hide BlockIn;
  }

  /** A block of the image that neither the allocator nor the data write touches. */
  ghost predicate Untouched(p: nat, d: Bytes, sm: Spaceman, start: nat, data: Bytes) {
    && (p + 1) * BS <= |d| && p !in {sm.paddr, sm.cibPaddr, sm.bitmapPaddr}
    && (p < start || start + BlocksFor(|data|) <= p)
  }

  /** The finished image: the volume is still mounted on it, and the file reads. */
  lemma Finished(v: OpenVolume, checked: bool, mt: Tree, root: nat, d0: Bytes, d1: Bytes, d2: Bytes, d3: Bytes, sm: Spaceman,
                 start: nat, s: InodeSpec, data: Bytes, others: seq<Record>)
    requires Mounted(v, d0, checked, mt, root) && |d0| < P56
    requires Steps(d0, d1, d2, d3, sm, start, BlocksFor(|data|), root) && PlainSpec(s, data)
    requires Untouched(root, d0, sm, start, data) && Untouched(v.omapPaddr, d0, sm, start, data) && Untouched(MapBlock(v), d0, sm, start, data)
    requires root != v.omapPaddr && root != MapBlock(v) && 0 < start && (start + BlocksFor(|data|)) * BS <= |d0|
    requires d2[start * BS..start * BS + |data|] == data
    requires NewFile(BlockIn(d0, root), root, others, s.id)
    requires InsertedAt(BlockIn(d0, root), root, FileRecords(s, data, start, others), BlockIn(d3, root))
    ensures Mounted(Over(v, d3, checked), d3, checked, mt, root) && FileReads(Over(v, d3, checked), s, data)
    ensures MapBlock(Over(v, d3, checked)) == MapBlock(v)
  {
    hide BlockIn, Mounted, Over, FileReads, ParsedImage, SelectRecords, Inserted, LeafShaped, RootBlockIs, CanSort, MapBlock,
      HoldsRecords, BuildInode, BuildFileExtent, InodeSpec.Typed;
    MountedHere(v, d0, checked, mt, root);
    forall m: nat | start <= m < start + BlocksFor(|data|)
      ensures BlockIn(d2, m) == BlockIn(d3, m)
    {
      assert m != root && (m + 1) * BS <= |d2|;
    }
    KeptThroughout(d0, d1, d2, d3, sm, start, BlocksFor(|data|), root, v.omapPaddr);
    KeptThroughout(d0, d1, d2, d3, sm, start, BlocksFor(|data|), root, MapBlock(v));
    var w, node, b := Over(v, d3, checked), ParsedImage(BlockIn(d0, root), root).value, BlockIn(d3, root);
    var added := FileRecords(s, data, start, others);
    InsertedVerifies(BlockIn(d0, root), node, added, b);
    StaysMounted(v, d0, d3, checked, mt, root);
    WrittenRootStores(w, mt, BlockIn(d0, root), node, added, b);
    FileSelected(node.records + others, s, data, start);
    assert node.records + added == node.records + others + [BuildInode(s), BuildFileExtent(s.id, 0, BlocksFor(|data|) * BS, start)];
    SameBlocksSameBytes(d2, d3, start, BlocksFor(|data|), |data|);
    DataOnDevice(v, d3, checked, start, data);
    StoredFileReads(w, mt, node.records + added, s, data, start);
  }

  lemma MountedHere(v: OpenVolume, data: Bytes, checked: bool, mt: Tree, root: nat)
    requires Mounted(v, data, checked, mt, root)
    ensures v.bs == BS
  {
  }

  lemma DataOnDevice(v: OpenVolume, d: Bytes, checked: bool, start: nat, data: Bytes)
    requires v.bs == BS && start * BS + |data| <= |d| && d[start * BS..start * BS + |data|] == data
    ensures OnDevice(Over(v, d, checked), start, data) && Over(v, d, checked).bs == BS
  {
  }

  lemma InsertedVerifies(was: Bytes, node: NodeImage, added: seq<Record>, b: Bytes)
    requires Inserted(was, node, added, b)
    ensures Verify(b)
  {
    hide NodeWriter.Fits, LayoutOf, HeaderWritten, DataWritten, TailWritten, Verify, Sortable;
  }

  /** Write a file as the writer does: allocate its blocks, write its data, insert its inode and extent with
      any other new records. If that completes, the volume is still mounted on the image, finds the file, and
      reads every slice of the data back; so another file can follow. It fails only where no allocation is
      possible or the records do not fit. */
  method StoreFile(img: Image, sm: Spaceman, s: InodeSpec, data: Bytes, others: seq<Record>, root: nat,
                   ghost v: OpenVolume, ghost checked: bool, ghost mt: Tree)
    returns (start: Option<nat>, ok: bool)
    requires Ready(img, sm, v, checked, mt, root) && PlainSpec(s, data) && NewFile(img.Block(root), root, others, s.id)
    modifies img
    ensures start.None? ==> !ok && !CanAllocate(old(SpaceIn(img, sm)), BlocksFor(|data|))
    ensures start.Some? && !ok ==> CanSort(old(img.Block(root)), root, FileRecords(s, data, start.value, others)) &&
                                   !CanInsert(old(img.Block(root)), root, FileRecords(s, data, start.value, others))
    ensures ok ==> start.Some? && |img.data| == |old(img.data)| && Ready(img, sm, Over(v, img.data, checked), checked, mt, root)
    ensures ok ==> Allocates(old(SpaceIn(img, sm)), BlocksFor(|data|), start.value, SpaceIn(img, sm))
    ensures ok ==> FileReads(Over(v, img.data, checked), s, data)
  {
    hide Mounted, SpaceOf, MapBlock, FileReads, NewFile, CanSort, CanInsert, InsertedAt, Over, Balanced, Recounted, Verify,
      Field, Allocates, InodeSpec.Typed, BuildInode, BuildFileExtent;
    ghost var d0, space := img.data, SpaceIn(img, sm);
    start := AllocOne(img, sm, BlocksFor(|data|));
    if start.None? {
      return start, false;
    }
    ghost var d1, taken := img.data, SpaceIn(img, sm);
    SpaceIs(img, sm);
    RangeInside(space, BlocksFor(|data|), start.value, SpaceIn(img, sm));
    forall p | p in space.used
      ensures p < start.value || start.value + BlocksFor(|data|) <= p
    {
      Spared(space, BlocksFor(|data|), start.value, SpaceIn(img, sm), p);
    }
    WriteData(img, start.value, data);
    ghost var d2 := img.data;
    assert BlockIn(d1, root) == BlockIn(d0, root) && BlockIn(d2, root) == BlockIn(d0, root);
    SortableNow(BlockIn(d0, root), root, s, data, start.value, others);
    ok := InsertRecords(img, root, FileRecords(s, data, start.value, others));
    if ok {
      forall m: nat | m != root && (m + 1) * BS <= |d2|
        ensures BlockIn(img.data, m) == BlockIn(d2, m)
      {
        assert img.Has(m) && img.Block(m) == BlockIn(img.data, m);
      }
      Finished(v, checked, mt, root, d0, d1, d2, img.data, sm, start.value, s, data, others);
      forall p | p in {0, sm.paddr, sm.cibPaddr, sm.bitmapPaddr}
        ensures BlockIn(img.data, p) == BlockIn(d1, p)
      {
        assert p in space.used;
      }
      SpaceIs(img, sm);
      SamePlaces(v, img.data, checked);
      PlacesStay(space, BlocksFor(|data|), start.value, taken, |img.data|, sm, v.omapPaddr, MapBlock(v), root);
    }
  }

  /** What the space manager's blocks and block zero say. */
  ghost function SpaceFrom(data: Bytes, sm: Spaceman): Space
    requires (sm.paddr + 1) * BS <= |data| && (sm.cibPaddr + 1) * BS <= |data| && (sm.bitmapPaddr + 1) * BS <= |data| && BS <= |data|
  {
    SpaceOf(BlockIn(data, sm.bitmapPaddr), Field(BlockIn(data, 0), 40, 8), BlockIn(data, sm.cibPaddr), BlockIn(data, sm.paddr))
  }

  lemma SpaceIs(img: Image, sm: Spaceman)
    requires Separate(img, sm)
    ensures SpaceIn(img, sm) == SpaceFrom(img.data, sm)
  {
    hide Field;
  }

  lemma SamePlaces(v: OpenVolume, data: Bytes, checked: bool)
    ensures Over(v, data, checked).omapPaddr == v.omapPaddr
  {
  }

  lemma SortableNow(b: Bytes, root: nat, s: InodeSpec, data: Bytes, start: nat, others: seq<Record>)
    requires NewFile(b, root, others, s.id) && PlainSpec(s, data)
    ensures CanSort(b, root, FileRecords(s, data, start, others))
  {
    hide CanSort, LeafShaped, ParsedImage, SelectRecords;
    RecordsSortable(s, data, start, others, b, root);
  }
}
