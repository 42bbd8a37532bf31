/** The theorems about stored volumes speak of something: any records that fit a leaf have a device whose
    volume stores them, written by the writer and found through an object map it wrote. */
module Witness {
  import opened Bytes
  import opened Checksum
  import opened Container
  import opened BTree
  import opened BTreeTheory
  import opened NodeCodec
  import opened NodeWriter
  import opened NodeRoundTrip
  import opened Omap
  import opened OmapTheory
  import opened Sorting
  import opened Spaceman
  import opened Volume
  import opened VolumeTheory
  import opened EndToEnd
  import opened ReadBack
  import opened WriteFile

  const ROOT_OID := 1024
  const ROOT_LEAF := 3

  // ---------- nodes written into fresh blocks ----------

  /** An empty block of a B-tree node with these flags. */
  function FreshNode(flags: nat): (r: Bytes)
    ensures |r| == BS
  {
    Zeros(24) + LE(OBJECT_TYPE_BTREE, 4) + Zeros(4) + LE(flags, 2) + Zeros(BS - 34)
  }

  lemma FreshFields(flags: nat)
    requires flags < U16
    ensures Field(FreshNode(flags), 24, 4) == OBJECT_TYPE_BTREE && Field(FreshNode(flags), 32, 2) == flags
    ensures DataStart(FreshNode(flags)) == 56
  {
    hide Field, LE;
    var a, b := Zeros(24), LE(OBJECT_TYPE_BTREE, 4);
    Field4At(a, OBJECT_TYPE_BTREE, Zeros(4) + LE(flags, 2) + Zeros(BS - 34));
    assert FreshNode(flags) == a + b + (Zeros(4) + LE(flags, 2) + Zeros(BS - 34));
    Field2At(a + b + Zeros(4), flags, Zeros(BS - 34));
    assert FreshNode(flags)[40..42] == Zeros(2);
    NoOffset(FreshNode(flags));
  }

  lemma NoOffset(b: Bytes)
    requires |b| == BS && b[40..42] == Zeros(2)
    ensures Field(b, 40, 2) == 0
  {
    FieldIs(b, 40, 2, [0, 0]);
  }

  function NodeOf(recs: seq<Record>, flags: nat): NodeImage {
    NodeImage(0, recs, flags % 2 == 1, 0)
  }

  /** `b` is a node with these flags that holds these records, as the writer writes it. */
  ghost predicate Serialized(b: Bytes, recs: seq<Record>, flags: nat) {
    NodeWriter.Fits(FreshNode(flags), NodeOf(recs, flags)) &&
    Written(FreshNode(flags), LayoutOf(FreshNode(flags), NodeOf(recs, flags)), b)
  }

  method Serialize(recs: seq<Record>, flags: nat) returns (b: Bytes)
    requires NodeWriter.Fits(FreshNode(flags), NodeOf(recs, flags))
    ensures Serialized(b, recs, flags)
  {
    hide NodeWriter.Fits, Written, LayoutOf, FreshNode;
    var img := new Image(FreshNode(flags));
    assert img.Has(0);
    assert img.Block(0) == FreshNode(flags);
    var ok := img.SerializeNode(NodeOf(recs, flags));
    b := img.Block(0);
  }

  lemma SmallFits(recs: seq<Record>, flags: nat)
    requires flags < U16 && |recs| <= 2 && forall r :: r in recs ==> |r.key| <= 64 && |r.val| <= 64
    ensures NodeWriter.Fits(FreshNode(flags), NodeOf(recs, flags))
  {
    hide FreshNode, Field;
    FreshFields(flags);
    SmallBytes(recs);
  }

  lemma {:induction false} SmallBytes(recs: seq<Record>)
    requires forall r :: r in recs ==> |r.key| <= 64 && |r.val| <= 64
    ensures |KeyBytes(recs)| <= 64 * |recs| && |ValBytes(recs)| <= 64 * |recs|
  {
    if |recs| > 0 {
      var n := |recs| - 1;
      assert recs == recs[..n] + [recs[n]];
      SmallBytes(recs[..n]);
    }
  }

  /** What the reader makes of such a node. */
  lemma ReadsBack(b: Bytes, recs: seq<Record>, flags: nat)
    requires flags < 4 && Serialized(b, recs, flags)
    ensures ParseNode(b).Ok? && Reads(ParseNode(b).value, recs)
    ensures ParseNode(b).value.flags == flags && ParseNode(b).value.block == b && |b| == BS
  {
    hide FreshNode, Field, Written, LayoutOf, NodeWriter.Fits, ParseNode, Reads;
    FreshFields(flags);
    ReaderRoundTrip(FreshNode(flags), NodeOf(recs, flags), b);
    Reading(FreshNode(flags), NodeOf(recs, flags), b);
  }

  lemma StampedField(b: Bytes, pos: nat, n: nat)
    requires |b| == BS && 8 <= pos && pos + n <= BS
    ensures Field(Stamped(b), pos, n) == Field(b, pos, n)
  {
    hide Field, Stamped;
    StampVerifies(b);
    SubSlice(b, 8, BS, pos - 8, pos - 8 + n);
    SubSlice(Stamped(b), 8, BS, pos - 8, pos - 8 + n);
    assert b[8..] == b[8..BS] && Stamped(b)[8..] == Stamped(b)[8..BS];
    SameField(Stamped(b), pos, b, pos, n);
  }

  lemma FreshLeafIsShaped(recs: seq<Record>)
    ensures LeafShaped(FreshNode(ROOT_LEAF), NodeOf(recs, ROOT_LEAF))
  {
    hide FreshNode, Field;
    FreshFields(ROOT_LEAF);
  }

  // ---------- an object map with one mapping ----------

  /** An object map whose tree is block 1; where block zero records the number of blocks it holds `total`. */
  function MapBody(total: nat): (r: Bytes)
    ensures |r| == BS
  {
    Zeros(24) + LE(OBJECT_TYPE_OMAP, 4) + Zeros(12) + LE(total, 8) + LE(1, 8) + Zeros(BS - 56)
  }

  lemma MapFields(total: nat)
    requires total < U64
    ensures var b := Stamped(MapBody(total));
            Field(b, 24, 4) == OBJECT_TYPE_OMAP && Field(b, 40, 8) == total && Field(b, 48, 8) == 1
  {
    hide Field, LE, Stamped;
    var a, b, t, o := Zeros(24), LE(OBJECT_TYPE_OMAP, 4), LE(total, 8), LE(1, 8);
    var z, rest := Zeros(12), Zeros(BS - 56);
    assert MapBody(total) == a + b + (z + t + o + rest);
    Field4At(a, OBJECT_TYPE_OMAP, z + t + o + rest);
    assert MapBody(total) == (a + b + z) + t + (o + rest);
    Field8At(a + b + z, total, o + rest);
    assert MapBody(total) == (a + b + z + t) + o + rest;
    Field8At(a + b + z + t, 1, rest);
    StampedField(MapBody(total), 24, 4);
    StampedField(MapBody(total), 40, 8);
    StampedField(MapBody(total), 48, 8);
  }

  lemma MapOpens(load: Loader, total: nat)
    requires load(0) == Ok(Stamped(MapBody(total))) && total < U64
    ensures OpenOmap(load, 0) == Ok(ObjectMap(load, 1))
  {
    hide Field, LE, Stamped, MapBody;
    MapFields(total);
  }

  /** The mapping of the root's oid to block 2. */
  function RootMapping(): OmapEntry {
    OmapEntry(ROOT_OID, 1, 0, BS, 2)
  }

  function MappingRecord(m: OmapEntry): Record {
    Record(EncodeMapping(m).key, EncodeMapping(m).val.value)
  }

  /** A map of one mapping. */
  ghost function MapLeaf(m: OmapEntry): Tree {
    Leaf(EntriesOf([MappingRecord(m)]))
  }

  ghost function MapTree(): Tree {
    MapLeaf(RootMapping())
  }

  ghost predicate LiveMapping(m: OmapEntry) {
    m.oid < U64 && m.xid < U64 && m.flags < U32 && m.size < U32 && m.paddr < U64 && m.flags % 2 == 0
  }

  lemma LeafResolves(m: OmapEntry)
    requires LiveMapping(m)
    ensures Flatten(MapLeaf(m)) == [EncodeMapping(m)]
    ensures Versions(Flatten(MapLeaf(m)))
    ensures Resolve(Flatten(MapLeaf(m)), m.oid, m.xid) == Ok(m)
  {
    hide ReadLE, LE, Field, DecodeMapping;
    var e := EncodeMapping(m);
    assert Flatten(MapLeaf(m)) == [e];
    MappingKey(m.oid, m.xid);
    KeyFields(e, m.oid, m.xid);
    MappingRoundTrip(m, m.xid);
  }

  lemma KeyFields(e: Entry, oid: nat, xid: nat)
    requires |e.key| == 16 && ReadLE(e.key, 0, 8) == Ok(oid) && ReadLE(e.key, 8, 8) == Ok(xid)
    ensures Latest([e], oid, xid) == Some(e)
  {
    hide Field;
  }

  lemma MapResolves()
    ensures Flatten(MapTree()) == [EncodeMapping(RootMapping())]
    ensures Versions(Flatten(MapTree()))
    ensures Resolve(Flatten(MapTree()), ROOT_OID, 1) == Ok(RootMapping())
  {
    hide MapLeaf;
    LeafResolves(RootMapping());
  }

  lemma RootResolves(v: OpenVolume, root: Bytes)
    requires v.load(2) == Ok(root) && v.rootTreeOid == ROOT_OID && v.xid == 1
    ensures MappedBlock(v.load, Flatten(MapTree()), v.rootTreeOid, v.xid) == Ok(root)
  {
    hide Resolve;
    MapResolves();
  }

  /** A written map tree is the one the object map stands for. */
  lemma MapStands(load: Loader, at: nat, b: Bytes, m: OmapEntry)
    requires load(at) == Ok(b) && Serialized(b, [MappingRecord(m)], ROOT_LEAF) && LiveMapping(m)
    ensures Maps(ObjectMap(load, at), MapLeaf(m)) && Navigable(MapLeaf(m))
  {
    hide NodeWriter.Fits, Written, LayoutOf, FreshNode, ParseNode, ParseTreeInfo, Denotes, Versions, Present, OmapSource;
    var node, empty := NodeOf([MappingRecord(m)], ROOT_LEAF), FreshNode(ROOT_LEAF);
    FreshLeafIsShaped([MappingRecord(m)]);
    WrittenRoot(empty, node, b);
    var info := ParseTreeInfo(ParseNode(b).value).value;
    var keySize, valSize := OrSixteen(info.keySize), OrSixteen(info.valSize);
    WrittenLeaf(empty, node, b, OmapSource(load, keySize, valSize), keySize, valSize);
    LeafResolves(m);
    assert Navigable(MapLeaf(m)) by { OneMappingNavigable(m); }
  }

  lemma OneMappingNavigable(m: OmapEntry)
    ensures Navigable(MapLeaf(m))
  {
  }

  // ---------- a device that stores any records ----------

  /** Three valid blocks at the start of a device load as they are. */
  lemma ThreeBlocks(a: Bytes, b: Bytes, c: Bytes, rest: Bytes, checked: bool)
    requires |a| == |b| == |c| == BS && Verify(a) && Verify(b) && Verify(c)
    ensures var load := LoadChecked(a + b + c + rest, BS, checked);
            load(0) == Ok(a) && load(1) == Ok(b) && load(2) == Ok(c)
  {
    hide Verify;
    var dev := a + b + c + rest;
    assert dev[0..BS] == a && dev[BS..2 * BS] == b && dev[2 * BS..3 * BS] == c;
  }

  lemma SerializedVerifies(b: Bytes, recs: seq<Record>, flags: nat)
    requires Serialized(b, recs, flags)
    ensures |b| == BS && Verify(b)
  {
    hide FreshNode, NodeWriter.Fits, LayoutOf, HeaderWritten, DataWritten, TailWritten, Verify;
  }

  /** A device, loaded through its checksums, whose volume stores `recs` and nothing else; `rest` follows its
      three metadata blocks, and block zero records `total` blocks. */
  method Format(recs: seq<Record>, rest: Bytes, incompat: nat, checked: bool, total: nat) returns (v: OpenVolume)
    requires AllSortable(recs) && NodeWriter.Fits(FreshNode(ROOT_LEAF), NodeOf(Sort(recs), ROOT_LEAF)) && total < U64
    ensures HoldsRecords(v, MapTree(), recs)
    ensures v.load == LoadChecked(v.dev, BS, checked) && v.bs == BS && |v.dev| == 3 * BS + |rest| && v.dev[3 * BS..] == rest
    ensures v.incompat == incompat && v.omapPaddr == 0 && v.rootTreeOid == ROOT_OID && v.xid == 1
    ensures OpenOmap(v.load, 0) == Ok(ObjectMap(v.load, 1)) && Field(v.dev[..BS], 40, 8) == total
    ensures Serialized(v.dev[2 * BS..3 * BS], Sort(recs), ROOT_LEAF)
  {
    hide NodeWriter.Fits, Serialized, HoldsRecords, Sortable, FreshNode, Stamped, LoadChecked, MapBody, Field, OpenOmap, MapTree;
    var mapTree := SerializeMap();
    var root := Serialize(Sort(recs), ROOT_LEAF);
    var dev := Stamped(MapBody(total)) + mapTree + root + rest;
    SerializedVerifies(mapTree, [MappingRecord(RootMapping())], ROOT_LEAF);
    SerializedVerifies(root, Sort(recs), ROOT_LEAF);
    v := OpenVolume(LoadChecked(dev, BS, checked), dev, BS, 0, ROOT_OID, 1, incompat);
    DeviceParts(Stamped(MapBody(total)), mapTree, root, rest);
    MapFields(total);
    LoadsParts(v.load, mapTree, root, recs, rest, checked, total);
    Stored(v, mapTree, root, recs, total);
  }

  method SerializeMap() returns (b: Bytes)
    ensures Serialized(b, [MappingRecord(RootMapping())], ROOT_LEAF)
  {
    SmallFits([MappingRecord(RootMapping())], ROOT_LEAF);
    b := Serialize([MappingRecord(RootMapping())], ROOT_LEAF);
  }

  lemma LoadsParts(load: Loader, mapTree: Bytes, root: Bytes, recs: seq<Record>, rest: Bytes, checked: bool, total: nat)
    requires AllSortable(recs) && total < U64
    requires Serialized(mapTree, [MappingRecord(RootMapping())], ROOT_LEAF) && Serialized(root, Sort(recs), ROOT_LEAF)
    requires load == LoadChecked(Stamped(MapBody(total)) + mapTree + root + rest, BS, checked)
    ensures load(0) == Ok(Stamped(MapBody(total))) && load(1) == Ok(mapTree) && load(2) == Ok(root)
    ensures OpenOmap(load, 0) == Ok(ObjectMap(load, 1))
  {
    hide Serialized, Sortable, Verify, Stamped, LoadChecked, MapBody, OpenOmap;
    StampVerifies(MapBody(total));
    SerializedVerifies(mapTree, [MappingRecord(RootMapping())], ROOT_LEAF);
    SerializedVerifies(root, Sort(recs), ROOT_LEAF);
    ThreeBlocks(Stamped(MapBody(total)), mapTree, root, rest, checked);
    MapOpens(load, total);
  }

  lemma DeviceParts(a: Bytes, b: Bytes, c: Bytes, rest: Bytes)
    requires |a| == |b| == |c| == BS
    ensures var dev := a + b + c + rest;
            dev[..BS] == a && dev[2 * BS..3 * BS] == c && dev[3 * BS..] == rest && |dev| == 3 * BS + |rest|
  {
  }

  lemma Stored(v: OpenVolume, mapTree: Bytes, root: Bytes, recs: seq<Record>, total: nat)
    requires v.omapPaddr == 0 && v.rootTreeOid == ROOT_OID && v.xid == 1 && AllSortable(recs) && total < U64
    requires v.load(0) == Ok(Stamped(MapBody(total))) && v.load(1) == Ok(mapTree) && v.load(2) == Ok(root)
    requires Serialized(mapTree, [MappingRecord(RootMapping())], ROOT_LEAF) && Serialized(root, Sort(recs), ROOT_LEAF)
    ensures HoldsRecords(v, MapTree(), recs)
  {
    hide Serialized, HoldsRecords, Sortable, Maps, Resolve, Stamped, MapBody, MapLeaf, Navigable, RootBlockIs;
    MapOpens(v.load, total);
    MapStands(v.load, 1, mapTree, RootMapping());
    RootResolves(v, root);
    assert RootBlockIs(v, MapTree(), root) by { RootIs(v, MapTree(), root); }
    LeafStores(v, MapTree(), root, recs);
  }

  lemma RootIs(v: OpenVolume, mt: Tree, root: Bytes)
    requires OpenOmap(v.load, v.omapPaddr).Ok? && Maps(OpenOmap(v.load, v.omapPaddr).value, mt) && Navigable(mt)
    requires MappedBlock(v.load, Flatten(mt), v.rootTreeOid, v.xid) == Ok(root)
    ensures RootBlockIs(v, mt, root)
  {
    hide Maps, Navigable, Resolve, OpenOmap;
  }

  /** A volume whose root is a leaf written from fresh stores its records. */
  lemma LeafStores(v: OpenVolume, mt: Tree, root: Bytes, recs: seq<Record>)
    requires AllSortable(recs) && Serialized(root, Sort(recs), ROOT_LEAF) && RootBlockIs(v, mt, root)
    ensures HoldsRecords(v, mt, recs)
  {
    hide Serialized, Inserted, HoldsRecords, Sortable, LeafShaped, FreshNode, RootBlockIs, Sort;
    FreshLeafIsShaped([]);
    assert [] + recs == recs;
    InsertedFresh(root, recs);
    WrittenRootStores(v, mt, FreshNode(ROOT_LEAF), NodeOf([], ROOT_LEAF), recs, root);
  }

  lemma InsertedFresh(root: Bytes, recs: seq<Record>)
    requires AllSortable(recs) && Serialized(root, Sort(recs), ROOT_LEAF)
    ensures Inserted(FreshNode(ROOT_LEAF), NodeOf([], ROOT_LEAF), recs, root)
  {
    hide NodeWriter.Fits, Written, LayoutOf, FreshNode, Sortable, Sort;
    assert [] + recs == recs;
  }

  // ---------- an image the writer may edit ----------

  const META := 6

  /** A block with a counter `v` of `w` bytes at `off`. */
  function Counter(off: nat, v: nat, w: nat): (r: Bytes)
    requires off + w <= BS
    ensures |r| == BS
  {
    Zeros(off) + LE(v, w) + Zeros(BS - off - w)
  }

  lemma CounterReads(off: nat, v: nat)
    requires off + 8 <= BS && v < U32
    ensures Field(Counter(off, v, 4), off, 4) == v && Field(Counter(off, v, 8), off, 8) == v
  {
    hide Field, LE;
    Field4At(Zeros(off), v, Zeros(BS - off - 4));
    Field8At(Zeros(off), v, Zeros(BS - off - 8));
  }

  /** The first six blocks are used. */
  function FirstBitmap(): (r: Bytes)
    ensures |r| == BS
  {
    [0x3F] + Zeros(BS - 1)
  }

  lemma FirstSixUsed(b: nat)
    ensures Used(FirstBitmap(), b) <==> b < META
  {
    if b < 8 {
      var h := b / 2;
      assert FirstBitmap()[b / 8] == 0x3F && b % 8 == b;
      SixBits(b);
    } else {
      NoBits(b % 8);
    }
  }

  lemma SixBits(b: nat)
    requires b < 8
    ensures Bit(0x3F, b) <==> b < META
  {
    assert Bit(0x3F, 0) && Bit(0x1F, 0) && Bit(0x0F, 0) && Bit(7, 0) && Bit(3, 0) && Bit(1, 0) && !Bit(0, 0);
    assert Bit(3, 1) && !Bit(1, 1);
    assert Bit(7, 1) && Bit(7, 2) && !Bit(3, 2);
    assert Bit(0x0F, 1) && Bit(0x0F, 2) && Bit(0x0F, 3) && !Bit(7, 3);
    assert Bit(0x1F, 1) && Bit(0x1F, 2) && Bit(0x1F, 3) && Bit(0x1F, 4) && !Bit(0x0F, 4);
    assert !Bit(0x1F, 5) && !Bit(0x1F, 6) by {
      assert !Bit(0, 1);
      assert !Bit(1, 2);
      assert !Bit(3, 3);
    }
  }

  lemma {:induction false} NoBits(k: nat)
    ensures !Bit(0, k)
  {
    if k > 0 {
      NoBits(k - 1);
    }
  }

  /** Where the space manager's three blocks lie. */
  function Managed(): Spaceman {
    Spaceman(3, 4, 5, SM_FREE_COUNT, CI_FREE_COUNT)
  }

  /** The space manager, its chunk, its bitmap, and `k` free blocks. */
  function Tail(k: nat): (r: Bytes)
    ensures |r| == 3 * BS + k * BS
  {
    Counter(SM_FREE_COUNT, k, 8) + Counter(CI_FREE_COUNT, k, 4) + FirstBitmap() + Zeros(k * BS)
  }

  lemma TailBlocks(dev: Bytes, k: nat)
    requires |dev| == META * BS + k * BS && dev[3 * BS..] == Tail(k)
    ensures BlockIn(dev, 3) == Counter(SM_FREE_COUNT, k, 8) && BlockIn(dev, 4) == Counter(CI_FREE_COUNT, k, 4)
    ensures BlockIn(dev, 5) == FirstBitmap()
  {
    hide Counter, FirstBitmap;
    var t, a, b, c := Tail(k), Counter(SM_FREE_COUNT, k, 8), Counter(CI_FREE_COUNT, k, 4), FirstBitmap();
    assert dev[3 * BS..] == dev[3 * BS..|dev|];
    SubSlice(dev, 3 * BS, |dev|, 0, BS);
    SubSlice(dev, 3 * BS, |dev|, BS, 2 * BS);
    SubSlice(dev, 3 * BS, |dev|, 2 * BS, 3 * BS);
    assert t[0..BS] == a && t[BS..2 * BS] == b && t[2 * BS..3 * BS] == c;
  }

  /** The space of such an image: six blocks used, and both counters at `k`. */
  lemma FirstSpace(dev: Bytes, k: nat)
    requires |dev| == META * BS + k * BS && dev[3 * BS..] == Tail(k) && META + k <= BITS
    requires Field(dev[..BS], 40, 8) == META + k
    ensures var a := SpaceOf(BlockIn(dev, 5), Field(BlockIn(dev, 0), 40, 8), BlockIn(dev, 4), BlockIn(dev, 3));
            && a.total == META + k && a.chunkFree == k && a.deviceFree == k
            && (forall b: nat :: b in a.used <==> b < META)
            && forall count: nat :: 0 < count <= k ==> CanAllocate(a, count)
  {
    hide Field, Counter, FirstBitmap, Used;
    TailBlocks(dev, k);
    CounterReads(SM_FREE_COUNT, k);
    CounterReads(CI_FREE_COUNT, k);
    assert BlockIn(dev, 0) == dev[..BS];
    var a := SpaceOf(BlockIn(dev, 5), Field(BlockIn(dev, 0), 40, 8), BlockIn(dev, 4), BlockIn(dev, 3));
    forall b: nat
      ensures b in a.used <==> b < META
    {
      FirstSixUsed(b);
    }
    forall count: nat | 0 < count <= k
      ensures CanAllocate(a, count)
    {
      assert Range(META, count) <= Clear(a);
    }
  }

  /** The empty root leaf, as the writer parses it. */
  lemma EmptyRoot(b: Bytes, id: nat)
    requires Serialized(b, [], ROOT_LEAF)
    ensures NewFile(b, 2, [], id)
  {
    hide FreshNode, Field, Written, LayoutOf, NodeWriter.Fits, ParsedImage, LeafShaped;
    FreshLeafIsShaped([]);
    ParsesEmpty(b);
  }

  lemma ParsesEmpty(b: Bytes)
    requires Serialized(b, [], ROOT_LEAF)
    ensures |b| == BS && ParsedImage(b, 2).Ok? && ParsedImage(b, 2).value.records == []
    ensures ParsedImage(b, 2).value.isRoot && LeafShaped(b, ParsedImage(b, 2).value)
  {
    hide FreshNode, Written, LayoutOf, NodeWriter.Fits, RecordAt;
    FreshFields(ROOT_LEAF);
    Reading(FreshNode(ROOT_LEAF), NodeOf([], ROOT_LEAF), b);
    assert RecordsFrom(Entries(b, 56 + Field(b, 40, 2), 56 + Field(b, 40, 2) + Field(b, 42, 2), ValEnd(true)), 0, 0) == Ok([]);
  }

  /** An image with an empty volume on it and `k` free blocks, which the writer may edit. */
  method FormatImage(k: nat, checked: bool) returns (img: Image, v: OpenVolume)
    requires META + k <= BITS
    ensures fresh(img) && Ready(img, Managed(), v, checked, MapTree(), 2)
    ensures forall id :: NewFile(img.Block(2), 2, [], id)
    ensures forall count: nat :: 0 < count <= k ==> CanAllocate(SpaceIn(img, Managed()), count)
  {
    hide NodeWriter.Fits, Serialized, HoldsRecords, LoadChecked, Tail, SpaceOf, CanAllocate, NewFile, Field, Mounted;
    SmallFits([], ROOT_LEAF);
    assert Sort([]) == [];
    v := Format([], Tail(k), 8, checked, META + k);
    FirstSpace(v.dev, k);
    img := new Image(v.dev);
    var root := img.Block(2);
    assert root == v.dev[2 * BS..3 * BS];
    forall id
      ensures NewFile(root, 2, [], id)
    {
      EmptyRoot(root, id);
    }
    FormattedMounts(v, checked);
    assert img.Block(5) == BlockIn(v.dev, 5) && img.Block(4) == BlockIn(v.dev, 4) && img.Block(3) == BlockIn(v.dev, 3);
    assert img.Block(0) == BlockIn(v.dev, 0);
  }

  lemma FormattedMounts(v: OpenVolume, checked: bool)
    requires HoldsRecords(v, MapTree(), []) && v.load == LoadChecked(v.dev, BS, checked) && v.bs == BS
    requires v.omapPaddr == 0 && v.rootTreeOid == ROOT_OID && v.xid == 1 && OpenOmap(v.load, 0) == Ok(ObjectMap(v.load, 1))
    ensures Mounted(v, v.dev, checked, MapTree(), 2) && MapBlock(v) == 1
  {
    hide Maps, Resolve, OpenOmap, LoadChecked, HoldsRecords, Flatten, RootMapping;
    MapResolves();
    HeldMap(v, MapTree(), []);
    assert RootMapping().paddr == 2 && RootMapping().flags == 0 by { MappingParts(); }
  }

  lemma MappingParts()
    ensures RootMapping().paddr == 2 && RootMapping().flags == 0
  {
  }

  lemma HeldMap(v: OpenVolume, mt: Tree, recs: seq<Record>)
    requires HoldsRecords(v, mt, recs)
    ensures OpenOmap(v.load, v.omapPaddr).Ok? && Maps(OpenOmap(v.load, v.omapPaddr).value, mt)
  {
    hide Maps, OpenOmap, RootTree, Denotes, Ordered, Headed, Sortable, Navigable, HeaderLe;
  }
}
