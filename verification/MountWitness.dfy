/** The premises of mounting can be met: a device of sixteen blocks whose newest checkpoint is not block
    zero's, and whose volume stores any records that fit a leaf. */
module MountWitness {
  import opened Bytes
  import opened BTreeTheory
  import opened Checkpoint
  import opened Checksum
  import opened Container
  import opened Formats
  import opened Mount
  import opened MountVolume
  import opened NodeWriter
  import opened Omap
  import opened OmapTheory
  import opened ReadBack
  import opened RsrcWriter
  import opened Sorting
  import opened SpaceOnDisk
  import opened Volume
  import opened VolumeTheory
  import opened Witness

  // ---------- a device of equal blocks ----------

  ghost predicate AllBlocks(ss: seq<Bytes>) {
    forall i :: 0 <= i < |ss| ==> |ss[i]| == BS
  }

  lemma {:induction false} JoinedBlock(ss: seq<Bytes>, i: nat)
    requires AllBlocks(ss) && i < |ss|
    ensures |Joined(ss)| == |ss| * BS && Has(Joined(ss), BS, i) && BlockAt(Joined(ss), BS, i) == ss[i]
  {
    var n := |ss| - 1;
    if n > 0 {
      JoinedBlock(ss[..n], if i < n then i else 0);
    } else {
      assert Joined(ss[..n]) == [];
    }
    if i < n {
      assert BlockAt(Joined(ss), BS, i) == BlockAt(Joined(ss[..n]), BS, i);
    }
  }

  lemma LoadsBlock(ss: seq<Bytes>, i: nat, checked: bool)
    requires AllBlocks(ss) && i < |ss| < 0x1_0000 && Verify(ss[i])
    ensures LoadChecked(Joined(ss), BS, checked)(i) == Ok(ss[i])
  {
    hide Verify, Joined;
    JoinedBlock(ss, i);
  }

  // ---------- stamped structures ----------

  lemma ChecksumFits(data: Bytes)
    ensures Fletcher(data) < U64
  {
    hide Sum1, Sum2, Low, High;
    HalvesInRange(Sum1(Words(data)), Sum2(Words(data)));
  }

  // ---------- the structures ----------

  const FS_OID := 1026
  const CHECKPOINT := 12
  const STALE := 7

  /** Descriptors in blocks 1 to 8, data in block 9, the object map in block 10. */
  function NxOf(xid: nat, cksum: nat): NxPhys {
    NxPhys(ObjPhys(cksum, 1, xid, 0x8000_0001, 0), BS, 16, 0, 0, 2, 0, 1030, xid + 1, 8, 1, 1, 9, 0, 0, 3, 1, 0, 1, 1024, 10, 1025)
  }

  function NxBlockOf(xid: nat): (b: Bytes)
    ensures |b| == BS
  {
    Stamped(NxOf(xid, 0).Bytes() + Zeros(BS - 176))
  }

  lemma NxBlockIs(xid: nat) returns (x: NxPhys)
    requires xid < 0x1_0000
    ensures x == NxOf(xid, x.obj.cksum) && x.Typed() && NxBlockOf(xid) == x.Bytes() + Zeros(BS - 176)
    ensures Verify(NxBlockOf(xid))
  {
    hide LE, Fletcher, Verify, Stamped;
    var was := NxOf(xid, 0);
    var b := was.Bytes() + Zeros(BS - 176);
    var tail := was.Identity() + was.Areas() + was.Position() + was.Oids() + Zeros(BS - 176);
    assert b == was.obj.Bytes() + tail;
    StampedIs(was.obj, tail);
    ChecksumFits(b);
    x := NxOf(xid, Fletcher(b));
    assert x.obj == was.obj.(cksum := Fletcher(b));
    assert x.Bytes() + Zeros(BS - 176) == x.obj.Bytes() + tail;
    StampVerifies(b);
  }

  /** Normalization-insensitive and not encrypted; its object map in block 13. */
  function ApfsOf(cksum: nat): ApfsPhys {
    ApfsPhys(ObjPhys(cksum, FS_OID, CHECKPOINT, 13, 0), 0, 0, 0, 8, 0, 0, 0, 0, 0, 2, 2, 2, 13, ROOT_OID, 0, 0, 0, 0, 16,
             0, 0, 0, 0, 0, 0, 0, 0, 0, 1)
  }

  function ApfsBlock(): (b: Bytes)
    ensures |b| == BS
  {
    Stamped(ApfsOf(0).Bytes() + Zeros(BS - 272))
  }

  lemma ApfsBlockIs() returns (x: ApfsPhys)
    ensures x == ApfsOf(x.obj.cksum) && Plain(x) && ApfsBlock() == x.Bytes() + Zeros(BS - 272)
    ensures Verify(ApfsBlock())
  {
    hide LE, Fletcher, Verify, Stamped;
    var was := ApfsOf(0);
    var b := was.Bytes() + Zeros(BS - 272);
    var tail := was.Identity() + was.Counts() + was.TreeTypes() + was.Oids() + was.Statistics() + LE(was.fsFlags, 8) +
                Zeros(BS - 272);
    assert b == was.obj.Bytes() + tail;
    StampedIs(was.obj, tail);
    ChecksumFits(b);
    x := ApfsOf(Fletcher(b));
    assert x.obj == was.obj.(cksum := Fletcher(b));
    assert x.Bytes() + Zeros(BS - 272) == x.obj.Bytes() + tail;
    StampVerifies(b);
  }

  function OmapOf(paddr: nat, tree: nat, cksum: nat): OmapPhys {
    OmapPhys(ObjPhys(cksum, paddr, CHECKPOINT, 0x4000_000B, 0), 0, 0, 2, 2, tree)
  }

  function OmapBlock(paddr: nat, tree: nat): (b: Bytes)
    ensures |b| == BS
  {
    Stamped(OmapOf(paddr, tree, 0).Bytes() + Zeros(BS - 56))
  }

  lemma OmapBlockIs(paddr: nat, tree: nat) returns (x: OmapPhys)
    requires paddr < U64 && tree < U64
    ensures x == OmapOf(paddr, tree, x.obj.cksum) && x.Typed() && OmapBlock(paddr, tree) == x.Bytes() + Zeros(BS - 56)
    ensures Verify(OmapBlock(paddr, tree))
  {
    hide LE, Fletcher, Verify, Stamped;
    var was := OmapOf(paddr, tree, 0);
    var b := was.Bytes() + Zeros(BS - 56);
    var tail := LE(was.flags, 4) + LE(was.snapCount, 4) + LE(was.treeType, 4) + LE(was.snapshotTreeType, 4) +
                LE(was.treeOid, 8) + Zeros(BS - 56);
    assert b == was.obj.Bytes() + tail;
    StampedIs(was.obj, tail);
    ChecksumFits(b);
    x := OmapOf(paddr, tree, Fletcher(b));
    assert x.obj == was.obj.(cksum := Fletcher(b));
    assert x.Bytes() + Zeros(BS - 56) == x.obj.Bytes() + tail;
    StampVerifies(b);
  }

  // ---------- the device ----------

  /** The container's map sends the volume's oid to block 12, the volume's map its root's to block 15. */
  const VOLUME_MAPPING := OmapEntry(FS_OID, CHECKPOINT, 0, BS, 12)
  const ROOT_MAPPING := OmapEntry(ROOT_OID, CHECKPOINT, 0, BS, 15)

  function DeviceBlocks(volumes: Bytes, roots: Bytes, root: Bytes): (ss: seq<Bytes>)
    requires |volumes| == |roots| == |root| == BS
    ensures |ss| == 16
  {
    [NxBlockOf(STALE), Zeros(BS), Zeros(BS), Zeros(BS), NxBlockOf(CHECKPOINT), Zeros(BS), Zeros(BS), Zeros(BS),
     Zeros(BS), Zeros(BS), OmapBlock(10, 11), volumes, ApfsBlock(), OmapBlock(13, 14), roots, root]
  }

  lemma DeviceIsBlocks(volumes: Bytes, roots: Bytes, root: Bytes)
    requires |volumes| == |roots| == |root| == BS
    ensures AllBlocks(DeviceBlocks(volumes, roots, root))
  {
    hide NxBlockOf, OmapBlock, ApfsBlock, Zeros;
  }

  lemma NothingInZeros(b: Bytes)
    requires b == Zeros(BS)
    ensures Field(b, 24, 4) == 0
  {
    hide Field;
    FourBytes(b, 24);
  }

  /** Block 4 is the only superblock of the descriptor area, and newer than block zero. */
  lemma BlockFourIsCurrent(ss: seq<Bytes>) returns (zero: NxPhys, x: NxPhys)
    requires |ss| == 16 && AllBlocks(ss) && ss[0] == NxBlockOf(STALE) && ss[4] == NxBlockOf(CHECKPOINT)
    requires forall q :: 1 <= q < 9 && q != 4 ==> ss[q] == Zeros(BS)
    ensures Current(Joined(ss), zero, 4, x, Zeros(BS - 176)) && x == NxOf(CHECKPOINT, x.obj.cksum)
  {
    hide Verify, Joined, NxBlockOf, Field, Zeros, BlockAt, Has;
    var dev := Joined(ss);
    zero := NxBlockIs(STALE);
    x := NxBlockIs(CHECKPOINT);
    JoinedBlock(ss, 0);
    JoinedBlock(ss, 4);
    FirstBlock(dev, ss[0], zero);
    NxIdentity(x, Zeros(BS - 176));
    forall q: nat | 1 <= q < 9 && q != 4
      ensures !Mountable(dev, BS, q)
    {
      JoinedBlock(ss, q);
      NothingInZeros(ss[q]);
    }
    assert Mountable(dev, BS, 4) && XidAt(dev, BS, 4) == CHECKPOINT;
  }

  lemma FirstBlock(dev: Bytes, b: Bytes, zero: NxPhys)
    requires Has(dev, BS, 0) && BlockAt(dev, BS, 0) == b == zero.Bytes() + Zeros(BS - 176)
    ensures |dev| >= BS && dev[..176] == zero.Bytes()
  {
    assert dev[..176] == b[..176];
  }

  /** One mapping in a map that a block opens. */
  lemma MapListed(load: Loader, paddr: nat, tree: nat, leaf: Bytes, m: OmapEntry, block: Bytes)
    requires paddr < U64 && tree < U64 && load(paddr) == Ok(OmapBlock(paddr, tree)) && load(tree) == Ok(leaf)
    requires Serialized(leaf, [MappingRecord(m)], ROOT_LEAF) && LiveMapping(m) && m.flags == 0 && load(m.paddr) == Ok(block)
    ensures OpenOmap(load, paddr) == Ok(ObjectMap(load, tree))
    ensures Listed(load, paddr, MapLeaf(m), m.oid, m.xid, block)
  {
    hide OmapBlock, Serialized, Maps, Navigable, MapLeaf, OpenOmap, Listed, MappedBlock;
    var x := OmapBlockIs(paddr, tree);
    MapOpensAt(load, paddr, x, Zeros(BS - 56));
    MapStands(load, tree, leaf, m);
    OneMapped(load, m, block);
    ListedBy(load, paddr, tree, MapLeaf(m), m.oid, m.xid, block);
  }

  lemma OneMapped(load: Loader, m: OmapEntry, block: Bytes)
    requires LiveMapping(m) && m.flags == 0 && load(m.paddr) == Ok(block)
    ensures MappedBlock(load, Flatten(MapLeaf(m)), m.oid, m.xid) == Ok(block)
  {
    hide Resolve, MapLeaf;
    LeafResolves(m);
  }

  lemma ListedBy(load: Loader, paddr: nat, tree: nat, ct: Tree, oid: nat, xid: nat, block: Bytes)
    requires OpenOmap(load, paddr) == Ok(ObjectMap(load, tree)) && Maps(ObjectMap(load, tree), ct) && Navigable(ct)
    requires MappedBlock(load, Flatten(ct), oid, xid) == Ok(block)
    ensures Listed(load, paddr, ct, oid, xid, block)
  {
    hide OpenOmap, Maps, Navigable, MappedBlock;
  }

  /** A device that stores any records that fit a leaf, mounted: the checkpoint of xid 12 in block 4, not
      block zero's of xid 7, and through it the volume. */
  method FormatDevice(recs: seq<Record>, checked: bool) returns (dev: Bytes, mounted: Result<Superblock>, v: OpenVolume)
    requires AllSortable(recs) && NodeWriter.Fits(FreshNode(ROOT_LEAF), NodeOf(Sort(recs), ROOT_LEAF))
    ensures mounted.Ok? && mounted.value.xid == 12 && mounted.value.spacemanOid == 1024 && mounted.value.omapOid == 10
    ensures Open(LoadChecked(dev, mounted.value.blockSize, checked), dev, mounted.value.blockSize, mounted.value.omapOid,
                 FS_OID, mounted.value.xid) == Ok(v)
    ensures HoldsRecords(v, MapLeaf(ROOT_MAPPING), recs)
  {
    hide NodeWriter.Fits, Serialized, HoldsRecords, Sortable, FreshNode, LoadChecked, Opens, Current, DeviceBlocks, Open,
         Sort, MapLeaf, Described;
    SmallFits([MappingRecord(VOLUME_MAPPING)], ROOT_LEAF);
    SmallFits([MappingRecord(ROOT_MAPPING)], ROOT_LEAF);
    var volumes := Serialize([MappingRecord(VOLUME_MAPPING)], ROOT_LEAF);
    var roots := Serialize([MappingRecord(ROOT_MAPPING)], ROOT_LEAF);
    var root := Serialize(Sort(recs), ROOT_LEAF);
    SerializedVerifies(volumes, [MappingRecord(VOLUME_MAPPING)], ROOT_LEAF);
    SerializedVerifies(roots, [MappingRecord(ROOT_MAPPING)], ROOT_LEAF);
    SerializedVerifies(root, Sort(recs), ROOT_LEAF);
    var ss := DeviceBlocks(volumes, roots, root);
    dev := Joined(ss);
    ghost var choice: Choice;
    mounted, choice := OpenContainer(dev);
    MountsBlockFour(ss, volumes, roots, root, mounted, choice);
    var load := LoadChecked(dev, BS, checked);
    ghost var x := VolumeListed(load, ss, volumes, roots, root, checked);
    VolumeOpens(load, dev, BS, 10, MapLeaf(VOLUME_MAPPING), FS_OID, CHECKPOINT, x, Zeros(BS - 272));
    v := OpenVolume(load, dev, BS, 13, ROOT_OID, CHECKPOINT, 8);
    RootStored(v, ss, volumes, roots, root, recs, checked);
  }

  lemma MountsBlockFour(ss: seq<Bytes>, volumes: Bytes, roots: Bytes, root: Bytes, r: Result<Superblock>, choice: Choice)
    requires |volumes| == |roots| == |root| == BS && ss == DeviceBlocks(volumes, roots, root) && Opens(Joined(ss), r, choice)
    ensures r.Ok? && r.value.xid == 12 && r.value.spacemanOid == 1024 && r.value.omapOid == 10 && r.value.blockSize == BS
  {
    hide NxBlockOf, OmapBlock, ApfsBlock, Zeros, Joined, Current, Opens;
    DeviceIsBlocks(volumes, roots, root);
    var zero, x := BlockFourIsCurrent(ss);
    NewestIsMounted(Joined(ss), zero, 4, x, Zeros(BS - 176), r, choice);
  }

  lemma VolumeListed(load: Loader, ss: seq<Bytes>, volumes: Bytes, roots: Bytes, root: Bytes, checked: bool) returns (x: ApfsPhys)
    requires |volumes| == |roots| == |root| == BS && ss == DeviceBlocks(volumes, roots, root)
    requires load == LoadChecked(Joined(ss), BS, checked)
    requires Serialized(volumes, [MappingRecord(VOLUME_MAPPING)], ROOT_LEAF) && Verify(volumes)
    ensures x == ApfsOf(x.obj.cksum) && Plain(x)
    ensures Listed(load, 10, MapLeaf(VOLUME_MAPPING), FS_OID, CHECKPOINT, x.Bytes() + Zeros(BS - 272))
  {
    hide NxBlockOf, OmapBlock, ApfsBlock, Zeros, Joined, LoadChecked, Serialized, Verify, Listed, Plain;
    DeviceIsBlocks(volumes, roots, root);
    x := ApfsBlockIs();
    var m := OmapBlockIs(10, 11);
    assert ss[10] == OmapBlock(10, 11) && ss[11] == volumes && ss[12] == ApfsBlock();
    LoadsBlock(ss, 10, checked);
    LoadsBlock(ss, 11, checked);
    LoadsBlock(ss, 12, checked);
    MapListed(load, 10, 11, volumes, VOLUME_MAPPING, ApfsBlock());
  }

  lemma RootStored(v: OpenVolume, ss: seq<Bytes>, volumes: Bytes, roots: Bytes, root: Bytes, recs: seq<Record>, checked: bool)
    requires |volumes| == |roots| == |root| == BS && ss == DeviceBlocks(volumes, roots, root)
    requires v.load == LoadChecked(Joined(ss), BS, checked) && v.omapPaddr == 13 && v.rootTreeOid == ROOT_OID && v.xid == CHECKPOINT
    requires Serialized(roots, [MappingRecord(ROOT_MAPPING)], ROOT_LEAF) && Verify(roots) && AllSortable(recs)
    requires Serialized(root, Sort(recs), ROOT_LEAF) && Verify(root)
    ensures HoldsRecords(v, MapLeaf(ROOT_MAPPING), recs)
  {
    hide NxBlockOf, OmapBlock, ApfsBlock, Zeros, Joined, LoadChecked, Serialized, Verify, HoldsRecords, Sort, Sortable, MapLeaf,
         Maps, Navigable, Resolve;
    DeviceIsBlocks(volumes, roots, root);
    var m := OmapBlockIs(13, 14);
    assert ss[13] == OmapBlock(13, 14) && ss[14] == roots && ss[15] == root;
    LoadsBlock(ss, 13, checked);
    LoadsBlock(ss, 14, checked);
    LoadsBlock(ss, 15, checked);
    MapListed(v.load, 13, 14, roots, ROOT_MAPPING, root);
    RootIs(v, MapLeaf(ROOT_MAPPING), root);
    LeafStores(v, MapLeaf(ROOT_MAPPING), root, recs);
  }
}
