/** Volumes (`volume.rs`) and the record queries over their file-system trees (`fs.rs`). */
module Volume {
  import opened Bytes
  import opened BTree
  import opened NodeCodec
  import opened NodeWriter
  import opened Omap
  import opened Hash
  import opened Records
  import opened Inodes
  import opened FileRead
  import opened Decmpfs

  const OBJECT_TYPE_FS := 13
  const APFS_MAGIC := 0x4253_5041
  const APFS_SIZE := 960

  const XATTR_SYMLINK: Bytes := [0x63, 0x6f, 0x6d, 0x2e, 0x61, 0x70, 0x70, 0x6c, 0x65, 0x2e, 0x66, 0x73, 0x2e,
                                 0x73, 0x79, 0x6d, 0x6c, 0x69, 0x6e, 0x6b]
  const XATTR_DECMPFS: Bytes := [0x63, 0x6f, 0x6d, 0x2e, 0x61, 0x70, 0x70, 0x6c, 0x65, 0x2e, 0x64, 0x65, 0x63,
                                 0x6d, 0x70, 0x66, 0x73]
  const XATTR_RESOURCE_FORK: Bytes := [0x63, 0x6f, 0x6d, 0x2e, 0x61, 0x70, 0x70, 0x6c, 0x65, 0x2e, 0x52, 0x65,
                                       0x73, 0x6f, 0x75, 0x72, 0x63, 0x65, 0x46, 0x6f, 0x72, 0x6b]

  /** An open volume in its container: the checked loader, the device its extents address, and the
      superblock fields the queries use. */
  datatype OpenVolume = OpenVolume(load: Loader, dev: Bytes, bs: nat, omapPaddr: nat, rootTreeOid: nat,
                                   xid: nat, incompat: nat)
  {
    predicate CaseInsensitive() {
      incompat % 2 == 1
    }

    predicate Hashed() {
      incompat / 8 % 2 == 1 || CaseInsensitive()
    }
  }

  /** `Volume::open`: the volume's superblock is itself a virtual object of the container's map. */
  function Open(load: Loader, dev: Bytes, bs: nat, containerOmap: nat, fsOid: nat, xid: nat): Result<OpenVolume> {
    var comap :- OpenOmap(load, containerOmap);
    var block :- LoadVirtual(comap, fsOid, xid);
    var obj :- ParseObjHeader(block);
    if BaseType(obj) != OBJECT_TYPE_FS then Err(Parse)
    else
      var magic :- ReadLE(block, OBJ_HDR_SIZE, 4);
      if magic != APFS_MAGIC then Err(BadMagic)
      else if |block| < APFS_SIZE then Err(Parse)
      else if Field(block, 264, 8) % 2 == 0 then Err(Encrypted)
      else if Field(block, 56, 8) / 32 % 2 == 1 then Err(Unsupported)
      else Ok(OpenVolume(load, dev, bs, Field(block, 128, 8), Field(block, 136, 8), xid, Field(block, 56, 8)))
  }

  /** The tree's root, itself a virtual object. */
  function RootTree(v: OpenVolume): Result<(NodeBlock, TreeInfo)> {
    var om :- OpenOmap(v.load, v.omapPaddr);
    var block :- LoadVirtual(om, v.rootTreeOid, v.xid);
    var root :- ParseNode(block);
    var info :- ParseTreeInfo(root);
    Ok((root, info))
  }

  /** Child pointers are virtual: each is resolved through the object map at the volume's xid. */
  function FsSource(om: ObjectMap, xid: nat, info: TreeInfo): Source {
    ref =>
      var block :- LoadVirtual(om, ref, xid);
      var node :- ParseNode(block);
      Ok(Present(node, info.keySize, info.valSize))
  }

  /** `cmp_objid_type`: only the (id, type) prefix of a key is compared. */
  function CmpIdType(id: nat, rtype: nat): Cmp {
    key =>
      var h :- KeyHeader(key);
      Ok(if h.0 != id then CompareNats(h.0, id) else CompareNats(h.1, rtype))
  }

  /** A query's callback: it stops at the first record of another (id, type). */
  function Matching<S>(id: nat, rtype: nat, step: Visitor<S>): Visitor<S> {
    (s: S, e: Entry) =>
      var h :- KeyHeader(e.key);
      if h != (id, rtype) then Ok((s, false)) else step(s, e)
  }

  /** Everything a scan of the volume's tree for (id, type) shows. */
  function QueryTrace(v: OpenVolume, id: nat, rtype: nat): Trace {
    match RootTree(v)
    case Err(e) => Failed(e)
    case Ok((root, info)) =>
      match OpenOmap(v.load, v.omapPaddr)
      case Err(e) => Failed(e)
      case Ok(om) =>
        ScanTrace(FsSource(om, v.xid, info), Present(root, info.keySize, info.valSize), CmpIdType(id, rtype), 0)
  }

  function Query<S>(v: OpenVolume, id: nat, rtype: nat, step: Visitor<S>, s: S): Result<S> {
    var r :- Run(Matching(id, rtype, step), s, QueryTrace(v, id, rtype));
    Ok(r.0)
  }

  method RunQuery<S>(v: OpenVolume, id: nat, rtype: nat, step: Visitor<S>, s: S) returns (r: Result<S>)
    ensures r == Query(v, id, rtype, step, s)
  {
    var tree :- RootTree(v);
    // The root was just found through this map, so it opens.
    var om := OpenOmap(v.load, v.omapPaddr);
    var (root, info) := tree;
    var out, loads := ScanFrom(FsSource(om.value, v.xid, info), Present(root, info.keySize, info.valSize), CmpIdType(id, rtype),
                        Matching(id, rtype, step), s);
    if out.Err? {
      return Err(out.error);
    }
    return Ok(out.value.0);
  }

  // ---------- inode ----------

  function InodeStep(id: nat): Visitor<Option<Inode>> {
    (s: Option<Inode>, e: Entry) =>
      var ino :- InodeOf(id, e);
      Ok((Some(ino), false))
  }

  function InodeOf(id: nat, e: Entry): Result<Inode> {
    if e.val.None? then Err(Corrupt) else ParsedInode(id, e.val.value)
  }

  function InodeQuery(v: OpenVolume, id: nat): Result<Inode> {
    var found: Option<Inode> :- Query(v, id, APFS_TYPE_INODE, InodeStep(id), None);
    if found.None? then Err(NotFound) else Ok(found.value)
  }

  method GetInode(v: OpenVolume, id: nat) returns (r: Result<Inode>)
    ensures r == InodeQuery(v, id)
  {
    var found: Option<Inode> :- RunQuery(v, id, APFS_TYPE_INODE, InodeStep(id), None);
    if found.None? {
      return Err(NotFound);
    }
    return Ok(found.value);
  }

  // ---------- read_dir_inode and extents ----------

  /** Collect what `parse` makes of each record. */
  function CollectStep<T>(parse: Entry -> Result<T>): Visitor<seq<T>> {
    (s: seq<T>, e: Entry) =>
      var x :- parse(e);
      Ok((s + [x], true))
  }

  function DirEntryOf(hashed: bool): Entry -> Result<DirEntry> {
    (e: Entry) => ParseDrec(e.key, e.val, hashed)
  }

  function ExtentOf(): Entry -> Result<FileExtent> {
    (e: Entry) => ParseFileExtent(e.key, e.val)
  }

  function DirQuery(v: OpenVolume, dirId: nat): Result<seq<DirEntry>> {
    Query(v, dirId, APFS_TYPE_DIR_REC, CollectStep(DirEntryOf(v.Hashed())), [])
  }

  function ExtentsQuery(v: OpenVolume, streamId: nat): Result<seq<FileExtent>> {
    Query(v, streamId, APFS_TYPE_FILE_EXTENT, CollectStep(ExtentOf()), [])
  }

  method ReadDirInode(v: OpenVolume, dirId: nat) returns (r: Result<seq<DirEntry>>)
    ensures r == DirQuery(v, dirId)
  {
    r := RunQuery(v, dirId, APFS_TYPE_DIR_REC, CollectStep(DirEntryOf(v.Hashed())), []);
  }

  // ---------- lookup_child ----------

  /** The first entry whose name is the wanted one, on a case-insensitive volume up to ASCII case; both are
      compared as `str` compares them, byte by byte. */
  function FindEntry(entries: seq<DirEntry>, name: Bytes, caseInsensitive: bool): Option<DirEntry> {
    if |entries| == 0 then None
    else if SameName(entries[0].name, name, caseInsensitive) then Some(entries[0])
    else FindEntry(entries[1..], name, caseInsensitive)
  }

  function ChildQuery(v: OpenVolume, dirId: nat, name: Bytes): Result<DirEntry> {
    var entries :- DirQuery(v, dirId);
    var found := FindEntry(entries, name, v.CaseInsensitive());
    if found.None? then Err(NotFound) else Ok(found.value)
  }

  method LookupChild(v: OpenVolume, dirId: nat, name: Bytes) returns (r: Result<DirEntry>)
    ensures r == ChildQuery(v, dirId, name)
  {
    var entries :- ReadDirInode(v, dirId);
    assert entries[0..] == entries;
    for i := 0 to |entries|
      invariant FindEntry(entries, name, v.CaseInsensitive()) == FindEntry(entries[i..], name, v.CaseInsensitive())
    {
      assert entries[i..][1..] == entries[i + 1..];
      if SameName(entries[i].name, name, v.CaseInsensitive()) {
        return Ok(entries[i]);
      }
    }
    return Err(NotFound);
  }

  method Extents(v: OpenVolume, streamId: nat) returns (r: Result<seq<FileExtent>>)
    ensures r == ExtentsQuery(v, streamId)
  {
    r := RunQuery(v, streamId, APFS_TYPE_FILE_EXTENT, CollectStep(ExtentOf()), []);
  }

  // ---------- xattr ----------

  /** Skip attributes of other names; stop at the one wanted. */
  function XattrStep(name: Bytes): Visitor<Option<XattrValue>> {
    (s: Option<XattrValue>, e: Entry) =>
      var k :- XattrName(e.key);
      if k != name then Ok((s, true))
      else
        var x :- ParseXattr(e.val);
        Ok((Some(x), false))
  }

  function XattrQuery(v: OpenVolume, id: nat, name: Bytes): Result<Option<XattrValue>> {
    Query(v, id, APFS_TYPE_XATTR, XattrStep(name), None)
  }

  /** The content of stream `objId`, `size` bytes long: its buffer comes first, then its extents. */
  ghost function StreamContent(v: OpenVolume, objId: nat, size: nat): Result<Bytes> {
    if size > MAX_ALLOC then Err(Panic)
    else if size == 0 then Ok([])
    else
      var exts :- ExtentsQuery(v, objId);
      WholeSlice(v.dev, v.bs, exts, size)
  }

  /** An attribute's value, read from its own stream if it has one. */
  ghost function XattrContent(v: OpenVolume, id: nat, name: Bytes): Result<Bytes> {
    var found :- XattrQuery(v, id, name);
    match found
    case None => Err(NotFound)
    case Some(Embedded(data)) => Ok(data)
    case Some(Stream(objId, size)) => StreamContent(v, objId, size)
  }

  /** Reading `n` bytes at `offset` of a stream computes no sum past 64 bits. */
  ghost predicate StreamFits(v: OpenVolume, objId: nat, size: nat, offset: nat, n: nat) {
    offset < size && ExtentsQuery(v, objId).Ok? ==>
      NoWrap(v.bs, ExtentsQuery(v, objId).value, offset, Want(size, offset, n))
  }

  /** Nor does reading an attribute. */
  ghost predicate XattrFits(v: OpenVolume, id: nat, name: Bytes) {
    match XattrQuery(v, id, name)
    case Ok(Some(Stream(objId, size))) => size <= MAX_ALLOC ==> StreamFits(v, objId, size, 0, size)
    case _ => true
  }

  /** The source reads a stream-backed value inside its callback, which then stops; reading it once the
      scan has stopped is the same. */
  method Xattr(v: OpenVolume, id: nat, name: Bytes) returns (r: Result<Bytes>)
    requires XattrFits(v, id, name)
    ensures r == XattrContent(v, id, name)
  {
    var found: Option<XattrValue> :- RunQuery(v, id, APFS_TYPE_XATTR, XattrStep(name), None);
    match found {
      case None => return Err(NotFound);
      case Some(Embedded(data)) => return Ok(data);
      case Some(Stream(objId, size)) =>
        if size > MAX_ALLOC {
          return Err(Panic);
        }
        if size == 0 {
          return Ok([]);
        }
        var exts :- Extents(v, objId);
        r := ReadWhole(v.dev, v.bs, exts, size);
    }
  }

  /** The target of a symbolic link. */
  ghost function LinkTarget(v: OpenVolume, ino: Inode): Result<Bytes> {
    if !ino.IsSymlink() then Err(Parse)
    else
      var data :- XattrContent(v, ino.id, XATTR_SYMLINK);
      Ok(CutAtNul(data))
  }

  method ReadLink(v: OpenVolume, ino: Inode) returns (r: Result<Bytes>)
    requires ino.IsSymlink() ==> XattrFits(v, ino.id, XATTR_SYMLINK)
    ensures r == LinkTarget(v, ino)
  {
    if !ino.IsSymlink() {
      return Err(Parse);
    }
    var data :- Xattr(v, ino.id, XATTR_SYMLINK);
    return Ok(CutAtNul(data));
  }

  /** `build_symlink_xattr`: embedded and owned by the file system. */
  function BuildSymlinkXattr(id: nat, target: Bytes): Record
    requires id < U64
  {
    BuildNamedXattr(id, XATTR_SYMLINK, 6, target + [0])
  }

  // ---------- read_file_at ----------

  /** What `read_file_at` returns for `n` bytes at `offset` of any kind of file. */
  ghost function FileContent(v: OpenVolume, z: Zlib, ino: Inode, offset: nat, n: nat): Result<Bytes> {
    if ino.IsDir() then Err(IsADirectory)
    else if ino.IsCompressed() then
      CompressedSlice(z, XattrContent(v, ino.id, XATTR_DECMPFS), XattrContent(v, ino.id, XATTR_RESOURCE_FORK), offset, n)
    else if offset >= ino.size then Ok([])
    else
      var exts :- ExtentsQuery(v, ino.privateId);
      FileSlice(v.dev, v.bs, exts, ino.size, offset, n)
  }

  /** No sum past 64 bits in reading a file: only the streams the read gets to count. */
  ghost predicate FileFits(v: OpenVolume, ino: Inode, offset: nat, n: nat) {
    if ino.IsDir() then true
    else if ino.IsCompressed() then
      && XattrFits(v, ino.id, XATTR_DECMPFS)
      && (NeedsFork(XattrContent(v, ino.id, XATTR_DECMPFS), offset) ==> XattrFits(v, ino.id, XATTR_RESOURCE_FORK))
    else StreamFits(v, ino.privateId, ino.size, offset, n)
  }

  method ReadFileAt(v: OpenVolume, z: Zlib, ino: Inode, offset: nat, buf: array<byte>) returns (r: Result<nat>)
    requires FileFits(v, ino, offset, buf.Length)
    modifies buf
    ensures r.Ok? ==> r.value <= buf.Length && buf[r.value..] == old(buf[r.value..])
    ensures FileContent(v, z, ino, offset, buf.Length) == if r.Ok? then Ok(buf[..r.value]) else Err(r.error)
  {
    hide CompressedSlice, XattrContent;
    if ino.IsDir() {
      return Err(IsADirectory);
    }
    if ino.IsCompressed() {
      r := ReadCompressed(v, z, ino.id, offset, buf);
      return;
    }
    if offset >= ino.size {
      return Ok(0);
    }
    var exts :- Extents(v, ino.privateId);
    r := ReadExtents(v.dev, v.bs, exts, ino.size, offset, buf);
  }

  /** A compressed file: its header, and the resource fork if the header calls for it. */
  method ReadCompressed(v: OpenVolume, z: Zlib, id: nat, offset: nat, buf: array<byte>) returns (r: Result<nat>)
    requires XattrFits(v, id, XATTR_DECMPFS)
    requires NeedsFork(XattrContent(v, id, XATTR_DECMPFS), offset) ==> XattrFits(v, id, XATTR_RESOURCE_FORK)
    modifies buf
    ensures r.Ok? ==> r.value <= buf.Length && buf[r.value..] == old(buf[r.value..])
    ensures CompressedSlice(z, XattrContent(v, id, XATTR_DECMPFS), XattrContent(v, id, XATTR_RESOURCE_FORK), offset, buf.Length)
         == if r.Ok? then Ok(buf[..r.value]) else Err(r.error)
  {
    hide CompressedSlice, XattrContent, XattrFits, NeedsFork;
    var header := Xattr(v, id, XATTR_DECMPFS);
    var fork: Result<Bytes> := Err(NotFound);
    if NeedsFork(header, offset) {
      fork := Xattr(v, id, XATTR_RESOURCE_FORK);
    } else {
      ForkUnused(z, header, fork, XattrContent(v, id, XATTR_RESOURCE_FORK), offset, buf.Length);
    }
    r := ReadAt(z, header, fork, offset, buf);
  }

  /** What `read_file` returns: the file, through a buffer of the size its inode claims. */
  ghost function WholeContent(v: OpenVolume, z: Zlib, ino: Inode): Result<Bytes> {
    if ino.size > MAX_ALLOC then Err(Panic) else FileContent(v, z, ino, 0, ino.size)
  }

  method ReadFile(v: OpenVolume, z: Zlib, ino: Inode) returns (r: Result<Bytes>)
    requires ino.size <= MAX_ALLOC ==> FileFits(v, ino, 0, ino.size)
    ensures r == WholeContent(v, z, ino)
  {
    hide FileContent, FileFits;
    if ino.size > MAX_ALLOC {
      return Err(Panic);
    }
    var buf := new byte[ino.size];
    var n := ReadFileAt(v, z, ino, 0, buf);
    if n.Err? {
      return Err(n.error);
    }
    return Ok(buf[..n.value]);
  }
}
