/** Opening a volume of a mounted device, from the bytes of its superblock and object maps, and reading
    back through it. */
module MountVolume {
  import opened Bytes
  import opened BTreeTheory
  import opened Checkpoint
  import opened Container
  import opened EndToEnd
  import opened Formats
  import opened Inodes
  import opened Mount
  import opened NodeCodec
  import opened NodeWriter
  import opened Omap
  import opened OmapTheory
  import opened ReadBack
  import opened Records
  import opened Volume
  import opened VolumeTheory

  /** An object map laid out in order opens at its tree, and nothing of another type does. */
  lemma MapOpensAt(load: Loader, paddr: nat, x: OmapPhys, rest: Bytes)
    requires x.Typed() && load(paddr) == Ok(x.Bytes() + rest)
    ensures OpenOmap(load, paddr) == if x.obj.otype % 0x1_0000 == 11 then Ok(ObjectMap(load, x.treeOid)) else Err(Parse)
  {
    hide Field;
    OmapReads(x, rest);
  }

  /** The container's map holds this volume superblock under its oid. */
  ghost predicate Listed(load: Loader, paddr: nat, ct: Tree, fsOid: nat, xid: nat, block: Bytes) {
    var om := OpenOmap(load, paddr);
    om.Ok? && Maps(om.value, ct) && Navigable(ct) && MappedBlock(load, Flatten(ct), fsOid, xid) == Ok(block)
  }

  lemma ListedLoads(load: Loader, paddr: nat, ct: Tree, fsOid: nat, xid: nat, block: Bytes)
    requires Listed(load, paddr, ct, fsOid, xid, block)
    ensures OpenOmap(load, paddr).Ok? && LoadVirtual(OpenOmap(load, paddr).value, fsOid, xid) == Ok(block)
  {
    hide Maps, Lookup, Navigable, Resolve;
    var om := OpenOmap(load, paddr).value;
    LoaderKept(load, paddr);
    LookupRefines(om, ct, fsOid, xid);
    assert LoadVirtual(om, fsOid, xid) == MappedBlock(load, Flatten(ct), fsOid, xid);
  }

  /** A volume superblock laid out in order opens with its own object map, root and features, unless it lacks
      the 960 bytes up to the end of its name, is encrypted (flag bit 0 clear) or else sealed (feature bit 5 set). */
  lemma VolumeOpens(load: Loader, dev: Bytes, bs: nat, paddr: nat, ct: Tree, fsOid: nat, xid: nat, x: ApfsPhys, rest: Bytes)
    requires Listed(load, paddr, ct, fsOid, xid, x.Bytes() + rest)
    requires x.Typed() && x.obj.otype % 0x1_0000 == 13
    ensures Open(load, dev, bs, paddr, fsOid, xid) ==
            if |x.Bytes() + rest| < 960 then Err(Parse)
            else if x.fsFlags % 2 == 0 then Err(Encrypted)
            else if x.incompatFeatures % 0x40 >= 0x20 then Err(Unsupported)
            else Ok(OpenVolume(load, dev, bs, x.omapOid, x.rootTreeOid, xid, x.incompatFeatures))
  {
    hide Field, Listed, LoadVirtual, OpenOmap, ReadLE, ParseObjHeader;
    ListedLoads(load, paddr, ct, fsOid, xid, x.Bytes() + rest);
    ApfsReads(x, rest);
    VolumeTag(x, rest);
    Sealed(x.incompatFeatures);
  }

  lemma Sealed(features: nat)
    ensures features / 0x20 % 2 == 1 <==> features % 0x40 >= 0x20
  {
    assert features % 0x40 == 0x20 * (features / 0x20 % 2) + features % 0x20;
  }

  lemma VolumeTag(x: ApfsPhys, rest: Bytes)
    requires x.Typed()
    ensures var b := x.Bytes() + rest;
            ParseObjHeader(b) == Ok(ObjHeader(x.obj.oid, x.obj.xid, x.obj.otype)) && ReadLE(b, 32, 4) == Ok(APFS_MAGIC)
  {
    hide Field;
    var b := x.Bytes() + rest;
    ApfsReads(x, rest);
    var after := x.Identity() + x.Counts() + x.TreeTypes() + x.Oids() + x.Statistics() + LE(x.fsFlags, 8) + rest;
    assert b == x.obj.Bytes() + after;
    ObjReads(x.obj, after);
    Tag(b, 32, [0x41, 0x50, 0x53, 0x42]);
  }

  /** A block of another type, or without the tag "APSB", is no volume. */
  lemma OtherBlocksDoNotOpen(load: Loader, dev: Bytes, bs: nat, paddr: nat, ct: Tree, fsOid: nat, xid: nat, block: Bytes)
    requires Listed(load, paddr, ct, fsOid, xid, block) && |block| >= 36
    ensures Field(block, 24, 4) % 0x1_0000 != 13 ==> Open(load, dev, bs, paddr, fsOid, xid) == Err(Parse)
    ensures Field(block, 24, 4) % 0x1_0000 == 13 && block[32..36] != [0x41, 0x50, 0x53, 0x42] ==>
              Open(load, dev, bs, paddr, fsOid, xid) == Err(BadMagic)
  {
    hide Field, Listed, LoadVirtual, OpenOmap;
    ListedLoads(load, paddr, ct, fsOid, xid, block);
    Tag(block, 32, [0x41, 0x50, 0x53, 0x42]);
  }

  /** The volume a superblock describes. */
  function Described(load: Loader, dev: Bytes, bs: nat, xid: nat, x: ApfsPhys): OpenVolume {
    OpenVolume(load, dev, bs, x.omapOid, x.rootTreeOid, xid, x.incompatFeatures)
  }

  /** Neither encrypted nor sealed. */
  ghost predicate Plain(x: ApfsPhys) {
    x.Typed() && x.obj.otype % 0x1_0000 == 13 && x.fsFlags % 2 == 1 && x.incompatFeatures % 0x40 < 0x20
  }

  /** From a device to a file: whatever superblock is the current one, a volume its object map lists opens,
      and an inode inserted there is found with every field it was given. */
  lemma MountedInodeReads(dev: Bytes, checked: bool, zero: NxPhys, p: nat, nx: NxPhys, nxRest: Bytes,
                          r: Result<Superblock>, choice: Choice, ct: Tree, fsOid: nat, x: ApfsPhys, rest: Bytes,
                          mt: Tree, recs: seq<Record>, s: InodeSpec)
    requires Current(dev, zero, p, nx, nxRest) && Opens(dev, r, choice)
    requires Listed(LoadChecked(dev, nx.blockSize, checked), nx.omapOid, ct, fsOid, nx.obj.xid, x.Bytes() + rest)
    requires Plain(x) && |rest| >= 960 - 272
    requires HoldsRecords(Described(LoadChecked(dev, nx.blockSize, checked), dev, nx.blockSize, nx.obj.xid, x), mt, recs)
    requires s.Typed() && s.id < P60 && |s.name| + 1 < U16 && 0 !in s.name
    requires SelectRecords(recs, s.id, APFS_TYPE_INODE) == [BuildInode(s)]
    ensures r.Ok?
    ensures var load := LoadChecked(dev, r.value.blockSize, checked);
            var v := Open(load, dev, r.value.blockSize, r.value.omapOid, fsOid, r.value.xid);
            v.Ok? && InodeQuery(v.value, s.id) == Ok(Expected(s))
  {
    hide Current, Opens, Listed, HoldsRecords, SelectRecords, InodeQuery, BuildInode, Expected, LoadChecked, Open;
    NewestIsMounted(dev, zero, p, nx, nxRest, r, choice);
    var load := LoadChecked(dev, nx.blockSize, checked);
    VolumeOpens(load, dev, nx.blockSize, nx.omapOid, ct, fsOid, nx.obj.xid, x, rest);
    InodeReadsBack(Described(load, dev, nx.blockSize, nx.obj.xid, x), mt, recs, s);
  }
}
