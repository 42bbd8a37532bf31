/** The structures the reader mounts from, as the Apple File System Reference lays them out: every field in
    its order and at its width, little-endian. They share nothing with the parsers but the bytes. */
module Formats {
  import opened Bytes

  /** `obj_phys_t`. */
  datatype ObjPhys = ObjPhys(cksum: nat, oid: nat, xid: nat, otype: nat, subtype: nat) {
    ghost predicate Typed() {
      cksum < U64 && oid < U64 && xid < U64 && otype < U32 && subtype < U32
    }

    function Bytes(): (r: Bytes)
      ensures |r| == 32
    {
      LE(cksum, 8) + LE(oid, 8) + LE(xid, 8) + LE(otype, 4) + LE(subtype, 4)
    }
  }

  lemma ObjReads(o: ObjPhys, rest: Bytes)
    requires o.Typed()
    ensures var b := o.Bytes() + rest;
            Field(b, 8, 8) == o.oid && Field(b, 16, 8) == o.xid && Field(b, 24, 4) == o.otype
  {
    hide Field, LE;
    var b := o.Bytes() + rest;
    var c, i, x, t, s := LE(o.cksum, 8), LE(o.oid, 8), LE(o.xid, 8), LE(o.otype, 4), LE(o.subtype, 4);
    assert b == c + i + (x + t + s + rest);
    Field8At(c, o.oid, x + t + s + rest);
    assert b == (c + i) + x + (t + s + rest);
    Field8At(c + i, o.xid, t + s + rest);
    assert b == (c + i + x) + t + (s + rest);
    Field4At(c + i + x, o.otype, s + rest);
  }

  /** `nx_superblock_t`, up to the reaper's oid. */
  datatype NxPhys = NxPhys(obj: ObjPhys, blockSize: nat, blockCount: nat, features: nat, readonlyFeatures: nat,
                           incompatFeatures: nat, uuid: nat, nextOid: nat, nextXid: nat,
                           descBlocks: nat, dataBlocks: nat, descBase: nat, dataBase: nat,
                           descNext: nat, dataNext: nat, descIndex: nat, descLen: nat, dataIndex: nat, dataLen: nat,
                           spacemanOid: nat, omapOid: nat, reaperOid: nat)
  {
    ghost predicate Typed() {
      && obj.Typed() && blockSize < U32 && blockCount < U64 && descBlocks < U32 && dataBlocks < U32
      && descBase < U64 && dataBase < U64 && spacemanOid < U64 && omapOid < U64
    }

    /** Magic, sizes and identity. */
    function Identity(): (r: Bytes)
      ensures |r| == 72
    {
      [0x4E, 0x58, 0x53, 0x42] + LE(blockSize, 4) + LE(blockCount, 8) + LE(features, 8) + LE(readonlyFeatures, 8) +
      LE(incompatFeatures, 8) + LE(uuid, 16) + LE(nextOid, 8) + LE(nextXid, 8)
    }

    /** The checkpoint areas. */
    function Areas(): (r: Bytes)
      ensures |r| == 24
    {
      LE(descBlocks, 4) + LE(dataBlocks, 4) + LE(descBase, 8) + LE(dataBase, 8)
    }

    /** Where this checkpoint lies in them. */
    function Position(): (r: Bytes)
      ensures |r| == 24
    {
      LE(descNext, 4) + LE(dataNext, 4) + LE(descIndex, 4) + LE(descLen, 4) + LE(dataIndex, 4) + LE(dataLen, 4)
    }

    function Oids(): (r: Bytes)
      ensures |r| == 24
    {
      LE(spacemanOid, 8) + LE(omapOid, 8) + LE(reaperOid, 8)
    }

    function Bytes(): (r: Bytes)
      ensures |r| == 176
    {
      obj.Bytes() + Identity() + Areas() + Position() + Oids()
    }
  }

  lemma NxIdentity(x: NxPhys, rest: Bytes)
    requires x.Typed()
    ensures var b := x.Bytes() + rest;
            && Field(b, 8, 8) == x.obj.oid && Field(b, 16, 8) == x.obj.xid && Field(b, 24, 4) == x.obj.otype
            && b[32..36] == [0x4E, 0x58, 0x53, 0x42] && Field(b, 36, 4) == x.blockSize && Field(b, 40, 8) == x.blockCount
  {
    hide Field, LE;
    var b := x.Bytes() + rest;
    var after := x.Areas() + x.Position() + x.Oids() + rest;
    assert b == x.obj.Bytes() + (x.Identity() + after);
    ObjReads(x.obj, x.Identity() + after);
    var m, s, c := [0x4E, 0x58, 0x53, 0x42], LE(x.blockSize, 4), LE(x.blockCount, 8);
    var t := LE(x.features, 8) + LE(x.readonlyFeatures, 8) + LE(x.incompatFeatures, 8) + LE(x.uuid, 16) +
             LE(x.nextOid, 8) + LE(x.nextXid, 8);
    assert x.Identity() == m + s + c + t;
    assert b == (x.obj.Bytes() + m) + s + (c + t + after);
    Field4At(x.obj.Bytes() + m, x.blockSize, c + t + after);
    assert b == (x.obj.Bytes() + m + s) + c + (t + after);
    Field8At(x.obj.Bytes() + m + s, x.blockCount, t + after);
  }

  lemma NxAreas(x: NxPhys, rest: Bytes)
    requires x.Typed()
    ensures var b := x.Bytes() + rest;
            && Field(b, 104, 4) == x.descBlocks && Field(b, 108, 4) == x.dataBlocks
            && Field(b, 112, 8) == x.descBase && Field(b, 120, 8) == x.dataBase
            && Field(b, 152, 8) == x.spacemanOid && Field(b, 160, 8) == x.omapOid
  {
    hide Field, LE;
    var b := x.Bytes() + rest;
    var pre, after := x.obj.Bytes() + x.Identity(), x.Position() + x.Oids() + rest;
    var n, d, p, q := LE(x.descBlocks, 4), LE(x.dataBlocks, 4), LE(x.descBase, 8), LE(x.dataBase, 8);
    assert b == pre + n + (d + p + q + after);
    Field4At(pre, x.descBlocks, d + p + q + after);
    assert b == (pre + n) + d + (p + q + after);
    Field4At(pre + n, x.dataBlocks, p + q + after);
    assert b == (pre + n + d) + p + (q + after);
    Field8At(pre + n + d, x.descBase, q + after);
    assert b == (pre + n + d + p) + q + after;
    Field8At(pre + n + d + p, x.dataBase, after);
    var to := pre + x.Areas() + x.Position();
    assert b == to + LE(x.spacemanOid, 8) + (LE(x.omapOid, 8) + LE(x.reaperOid, 8) + rest);
    Field8At(to, x.spacemanOid, LE(x.omapOid, 8) + LE(x.reaperOid, 8) + rest);
    assert b == (to + LE(x.spacemanOid, 8)) + LE(x.omapOid, 8) + (LE(x.reaperOid, 8) + rest);
    Field8At(to + LE(x.spacemanOid, 8), x.omapOid, LE(x.reaperOid, 8) + rest);
  }

  /** `apfs_superblock_t`, up to its flags. */
  datatype ApfsPhys = ApfsPhys(obj: ObjPhys, fsIndex: nat, features: nat, readonlyFeatures: nat, incompatFeatures: nat,
                               unmountTime: nat, reserveBlocks: nat, quotaBlocks: nat, allocBlocks: nat,
                               metaCrypto: nat, rootTreeType: nat, extentrefTreeType: nat, snapMetaTreeType: nat,
                               omapOid: nat, rootTreeOid: nat, extentrefTreeOid: nat, snapMetaTreeOid: nat,
                               revertToXid: nat, revertToSblock: nat, nextObjId: nat,
                               files: nat, directories: nat, symlinks: nat, others: nat, snapshots: nat,
                               blocksAlloced: nat, blocksFreed: nat, uuid: nat, lastModTime: nat, fsFlags: nat)
  {
    ghost predicate Typed() {
      obj.Typed() && incompatFeatures < U64 && omapOid < U64 && rootTreeOid < U64 && fsFlags < U64
    }

    function Identity(): (r: Bytes)
      ensures |r| == 32
    {
      [0x41, 0x50, 0x53, 0x42] + LE(fsIndex, 4) + LE(features, 8) + LE(readonlyFeatures, 8) + LE(incompatFeatures, 8)
    }

    /** Times and block counts, and the wrapped state of the metadata's key. */
    function Counts(): (r: Bytes)
      ensures |r| == 52
    {
      LE(unmountTime, 8) + LE(reserveBlocks, 8) + LE(quotaBlocks, 8) + LE(allocBlocks, 8) + LE(metaCrypto, 20)
    }

    function TreeTypes(): (r: Bytes)
      ensures |r| == 12
    {
      LE(rootTreeType, 4) + LE(extentrefTreeType, 4) + LE(snapMetaTreeType, 4)
    }

    function Oids(): (r: Bytes)
      ensures |r| == 48
    {
      LE(omapOid, 8) + LE(rootTreeOid, 8) + LE(extentrefTreeOid, 8) + LE(snapMetaTreeOid, 8) +
      LE(revertToXid, 8) + LE(revertToSblock, 8)
    }

    function Statistics(): (r: Bytes)
      ensures |r| == 88
    {
      LE(nextObjId, 8) + LE(files, 8) + LE(directories, 8) + LE(symlinks, 8) + LE(others, 8) + LE(snapshots, 8) +
      LE(blocksAlloced, 8) + LE(blocksFreed, 8) + LE(uuid, 16) + LE(lastModTime, 8)
    }

    function Bytes(): (r: Bytes)
      ensures |r| == 272
    {
      obj.Bytes() + Identity() + Counts() + TreeTypes() + Oids() + Statistics() + LE(fsFlags, 8)
    }
  }

  lemma ApfsReads(x: ApfsPhys, rest: Bytes)
    requires x.Typed()
    ensures var b := x.Bytes() + rest;
            && Field(b, 16, 8) == x.obj.xid && Field(b, 24, 4) == x.obj.otype
            && b[32..36] == [0x41, 0x50, 0x53, 0x42] && Field(b, 56, 8) == x.incompatFeatures
            && Field(b, 128, 8) == x.omapOid && Field(b, 136, 8) == x.rootTreeOid && Field(b, 264, 8) == x.fsFlags
  {
    hide Field, LE;
    var b := x.Bytes() + rest;
    var tail := x.Statistics() + LE(x.fsFlags, 8) + rest;
    var after := x.Counts() + x.TreeTypes() + x.Oids() + tail;
    assert b == x.obj.Bytes() + (x.Identity() + after);
    ObjReads(x.obj, x.Identity() + after);
    var head := [0x41, 0x50, 0x53, 0x42] + LE(x.fsIndex, 4) + LE(x.features, 8) + LE(x.readonlyFeatures, 8);
    assert b == (x.obj.Bytes() + head) + LE(x.incompatFeatures, 8) + after;
    Field8At(x.obj.Bytes() + head, x.incompatFeatures, after);
    var pre := x.obj.Bytes() + x.Identity() + x.Counts() + x.TreeTypes();
    var o, r := LE(x.omapOid, 8), LE(x.rootTreeOid, 8);
    var others := LE(x.extentrefTreeOid, 8) + LE(x.snapMetaTreeOid, 8) + LE(x.revertToXid, 8) + LE(x.revertToSblock, 8);
    assert x.Oids() == o + r + others;
    assert b == pre + o + (r + others + tail);
    Field8At(pre, x.omapOid, r + others + tail);
    assert b == (pre + o) + r + (others + tail);
    Field8At(pre + o, x.rootTreeOid, others + tail);
    var to := pre + x.Oids() + x.Statistics();
    assert b == to + LE(x.fsFlags, 8) + rest;
    Field8At(to, x.fsFlags, rest);
  }

  /** `omap_phys_t`, up to its tree's address. */
  datatype OmapPhys = OmapPhys(obj: ObjPhys, flags: nat, snapCount: nat, treeType: nat, snapshotTreeType: nat, treeOid: nat) {
    ghost predicate Typed() {
      obj.Typed() && treeOid < U64
    }

    function Bytes(): (r: Bytes)
      ensures |r| == 56
    {
      obj.Bytes() + LE(flags, 4) + LE(snapCount, 4) + LE(treeType, 4) + LE(snapshotTreeType, 4) + LE(treeOid, 8)
    }
  }

  lemma OmapReads(x: OmapPhys, rest: Bytes)
    requires x.Typed()
    ensures var b := x.Bytes() + rest; Field(b, 24, 4) == x.obj.otype && Field(b, 48, 8) == x.treeOid
  {
    hide Field, LE;
    var b := x.Bytes() + rest;
    var mid := LE(x.flags, 4) + LE(x.snapCount, 4) + LE(x.treeType, 4) + LE(x.snapshotTreeType, 4);
    assert b == x.obj.Bytes() + (mid + LE(x.treeOid, 8) + rest);
    ObjReads(x.obj, mid + LE(x.treeOid, 8) + rest);
    assert b == (x.obj.Bytes() + mid) + LE(x.treeOid, 8) + rest;
    Field8At(x.obj.Bytes() + mid, x.treeOid, rest);
  }

  /** `spaceman_phys_t`, up to the main device's address offset. */
  datatype SpacemanPhys = SpacemanPhys(obj: ObjPhys, blockSize: nat, blocksPerChunk: nat, chunksPerCib: nat, cibsPerCab: nat,
                                       blockCount: nat, chunkCount: nat, cibCount: nat, cabCount: nat,
                                       freeCount: nat, addrOffset: nat)
  {
    ghost predicate Typed() {
      obj.Typed() && freeCount < U64 && addrOffset < U32
    }

    function Sizes(): (r: Bytes)
      ensures |r| == 16
    {
      LE(blockSize, 4) + LE(blocksPerChunk, 4) + LE(chunksPerCib, 4) + LE(cibsPerCab, 4)
    }

    function Counts(): (r: Bytes)
      ensures |r| == 24
    {
      LE(blockCount, 8) + LE(chunkCount, 8) + LE(cibCount, 4) + LE(cabCount, 4)
    }

    function Bytes(): (r: Bytes)
      ensures |r| == 84
    {
      obj.Bytes() + Sizes() + Counts() + LE(freeCount, 8) + LE(addrOffset, 4)
    }
  }

  lemma SpacemanReads(x: SpacemanPhys, rest: Bytes)
    requires x.Typed()
    ensures var b := x.Bytes() + rest;
            && Field(b, 8, 8) == x.obj.oid && Field(b, 24, 4) == x.obj.otype
            && Field(b, 72, 8) == x.freeCount && Field(b, 80, 4) == x.addrOffset
  {
    hide Field, LE;
    var b := x.Bytes() + rest;
    var pre, f, a := x.obj.Bytes() + x.Sizes() + x.Counts(), LE(x.freeCount, 8), LE(x.addrOffset, 4);
    assert b == x.obj.Bytes() + (x.Sizes() + x.Counts() + f + a + rest);
    ObjReads(x.obj, x.Sizes() + x.Counts() + f + a + rest);
    assert b == pre + f + (a + rest);
    Field8At(pre, x.freeCount, a + rest);
    assert b == (pre + f) + a + rest;
    Field4At(pre + f, x.addrOffset, rest);
  }

  /** `chunk_info_block_t` with its first chunk. */
  datatype ChunkPhys = ChunkPhys(obj: ObjPhys, index: nat, count: nat, xid: nat, addr: nat, blockCount: nat,
                                 freeCount: nat, bitmapAddr: nat)
  {
    ghost predicate Typed() {
      obj.Typed() && freeCount < U32 && bitmapAddr < U64
    }

    function Bytes(): (r: Bytes)
      ensures |r| == 72
    {
      obj.Bytes() + LE(index, 4) + LE(count, 4) + LE(xid, 8) + LE(addr, 8) + LE(blockCount, 4) +
      LE(freeCount, 4) + LE(bitmapAddr, 8)
    }
  }

  lemma ChunkReads(x: ChunkPhys, rest: Bytes)
    requires x.Typed()
    ensures var b := x.Bytes() + rest; Field(b, 60, 4) == x.freeCount && Field(b, 64, 8) == x.bitmapAddr
  {
    hide Field, LE;
    var b := x.Bytes() + rest;
    var pre := x.obj.Bytes() + LE(x.index, 4) + LE(x.count, 4) + LE(x.xid, 8) + LE(x.addr, 8) + LE(x.blockCount, 4);
    assert b == pre + LE(x.freeCount, 4) + (LE(x.bitmapAddr, 8) + rest);
    Field4At(pre, x.freeCount, LE(x.bitmapAddr, 8) + rest);
    assert b == (pre + LE(x.freeCount, 4)) + LE(x.bitmapAddr, 8) + rest;
    Field8At(pre + LE(x.freeCount, 4), x.bitmapAddr, rest);
  }

  /** `btree_node_phys_t`, up to its data. */
  datatype NodePhys = NodePhys(obj: ObjPhys, flags: nat, level: nat, nkeys: nat, tableOff: nat, tableLen: nat,
                               freeOff: nat, freeLen: nat, keyListOff: nat, keyListLen: nat, valListOff: nat, valListLen: nat)
  {
    ghost predicate Typed() {
      obj.Typed() && flags < U16 && nkeys < U32 && tableOff < U16 && tableLen < U16
    }

    function Lists(): (r: Bytes)
      ensures |r| == 12
    {
      LE(freeOff, 2) + LE(freeLen, 2) + LE(keyListOff, 2) + LE(keyListLen, 2) + LE(valListOff, 2) + LE(valListLen, 2)
    }

    function Bytes(): (r: Bytes)
      ensures |r| == 56
    {
      obj.Bytes() + LE(flags, 2) + LE(level, 2) + LE(nkeys, 4) + LE(tableOff, 2) + LE(tableLen, 2) + Lists()
    }
  }

  lemma NodeReads(x: NodePhys, rest: Bytes)
    requires x.Typed()
    ensures var b := x.Bytes() + rest;
            && Field(b, 24, 4) == x.obj.otype && Field(b, 32, 2) == x.flags && Field(b, 36, 4) == x.nkeys
            && Field(b, 40, 2) == x.tableOff && Field(b, 42, 2) == x.tableLen
  {
    hide Field, LE;
    var b := x.Bytes() + rest;
    var o, f, l, k, t, u := x.obj.Bytes(), LE(x.flags, 2), LE(x.level, 2), LE(x.nkeys, 4), LE(x.tableOff, 2), LE(x.tableLen, 2);
    var tail := x.Lists() + rest;
    assert b == o + (f + l + k + t + u + tail);
    ObjReads(x.obj, f + l + k + t + u + tail);
    assert b == o + f + (l + k + t + u + tail);
    Field2At(o, x.flags, l + k + t + u + tail);
    assert b == (o + f + l) + k + (t + u + tail);
    Field4At(o + f + l, x.nkeys, t + u + tail);
    assert b == (o + f + l + k) + t + (u + tail);
    Field2At(o + f + l + k, x.tableOff, u + tail);
    assert b == (o + f + l + k + t) + u + tail;
    Field2At(o + f + l + k + t, x.tableLen, tail);
  }

  /** `btree_info_t`. */
  datatype TreePhys = TreePhys(flags: nat, nodeSize: nat, keySize: nat, valSize: nat, longestKey: nat, longestVal: nat,
                               keyCount: nat, nodeCount: nat)
  {
    ghost predicate Typed() {
      keySize < U32 && valSize < U32 && keyCount < U64
    }

    function Bytes(): (r: Bytes)
      ensures |r| == 40
    {
      LE(flags, 4) + LE(nodeSize, 4) + LE(keySize, 4) + LE(valSize, 4) + LE(longestKey, 4) + LE(longestVal, 4) +
      LE(keyCount, 8) + LE(nodeCount, 8)
    }
  }

  /** At the end of a block. */
  lemma TreeReads(before: Bytes, x: TreePhys)
    requires x.Typed()
    ensures var b := before + x.Bytes();
            && Field(b, |before| + 8, 4) == x.keySize && Field(b, |before| + 12, 4) == x.valSize
            && Field(b, |before| + 24, 8) == x.keyCount
  {
    hide Field, LE;
    var b := before + x.Bytes();
    var f, n, k, v := LE(x.flags, 4), LE(x.nodeSize, 4), LE(x.keySize, 4), LE(x.valSize, 4);
    var longest, c, m := LE(x.longestKey, 4) + LE(x.longestVal, 4), LE(x.keyCount, 8), LE(x.nodeCount, 8);
    assert b == (before + f + n) + k + (v + longest + c + m);
    Field4At(before + f + n, x.keySize, v + longest + c + m);
    assert b == (before + f + n + k) + v + (longest + c + m);
    Field4At(before + f + n + k, x.valSize, longest + c + m);
    assert b == (before + f + n + k + v + longest) + c + m;
    Field8At(before + f + n + k + v + longest, x.keyCount, m);
  }
}
