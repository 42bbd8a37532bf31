/** Inode records: the core's parser (`Inode::parse` in `fs.rs`) and the writer's builder (`build_inode`). */
module Inodes {
  import opened Bytes
  import opened NodeWriter
  import opened Records
  import opened SliceReader

  datatype Inode = Inode(id: nat, parentId: nat, privateId: nat, createTime: nat, modTime: nat, changeTime: nat,
                         accessTime: nat, internalFlags: nat, nchildrenOrNlink: int, bsdFlags: nat, owner: nat,
                         group: nat, mode: nat, size: nat, allocedSize: nat, name: Option<Bytes>)
  {
    /** `mode & S_IFMT`. */
    function FileType(): nat {
      mode / 0x1000 % 16
    }

    predicate IsDir() {
      FileType() == 4
    }

    predicate IsSymlink() {
      FileType() == 10
    }

    predicate IsCompressed() {
      bsdFlags / UF_COMPRESSED % 2 == 1
    }
  }

  const FIXED_SIZE := 92

  /** `as i32`. */
  function AsI32(v: nat): int {
    if v < 0x8000_0000 then v else v - U32
  }

  /** `as u32`. */
  function AsU32(v: int): nat {
    v % U32
  }

  // ---------- what a parse yields ----------

  function TimedPart(id: nat, val: Bytes): Inode
    requires 56 <= |val|
  {
    Inode(id, Field(val, 0, 8), Field(val, 8, 8), Field(val, 16, 8), Field(val, 24, 8), Field(val, 32, 8),
          Field(val, 40, 8), Field(val, 48, 8), 0, 0, 0, 0, 0, 0, 0, None)
  }

  function OwnedPart(ino: Inode, val: Bytes): Inode
    requires 80 <= |val|
  {
    ino.(nchildrenOrNlink := AsI32(Field(val, 56, 4)), bsdFlags := Field(val, 68, 4),
         owner := Field(val, 72, 4), group := Field(val, 76, 4))
  }

  function FixedPart(id: nat, val: Bytes): Inode
    requires FIXED_SIZE <= |val|
  {
    OwnedPart(TimedPart(id, val), val).(mode := Field(val, 80, 2))
  }

  /** What one extended field adds. */
  function ApplyField(xtype: nat, data: Bytes, ino: Inode): Result<Inode> {
    if xtype == INO_EXT_TYPE_NAME then Ok(ino.(name := Some(CutAtNul(data))))
    else if xtype == INO_EXT_TYPE_DSTREAM then
      var size :- ReadLE(data, 0, 8);
      var alloced :- ReadLE(data, 8, 8);
      Ok(ino.(size := size, allocedSize := alloced))
    else Ok(ino)
  }

  /** Padding to the next multiple of 8. */
  function PadLen(n: nat): (p: nat)
    ensures p < 8 && (n + p) % 8 == 0
  {
    (8 - n % 8) % 8
  }

  /** Where the data after a field of `size` bytes at `pos` starts; padding past the end is not skipped. */
  function NextField(val: Bytes, pos: nat, size: nat): nat
    requires pos + size <= |val|
  {
    if pos + size + PadLen(size) <= |val| then pos + size + PadLen(size) else pos + size
  }

  /** Extended fields `i..`, whose data starts at `pos`. */
  function XFields(val: Bytes, metas: seq<(nat, nat)>, pos: nat, ino: Inode): Result<Inode>
    decreases |metas|
  {
    if |metas| == 0 then Ok(ino)
    else
      var (xtype, size) := metas[0];
      var data :- TakeAt(val, pos, size);
      var ino' :- ApplyField(xtype, data, ino);
      XFields(val, metas[1..], NextField(val, pos, size), ino')
  }

  /** The (type, size) headers of the first `n` extended fields. */
  function Metas(val: Bytes, n: nat): (r: seq<(nat, nat)>)
    requires FIXED_SIZE + 4 + 4 * n <= |val|
    ensures |r| == n
  {
    seq(n, i requires 0 <= i < n => (Field(val, FIXED_SIZE + 4 + 4 * i, 1), Field(val, FIXED_SIZE + 6 + 4 * i, 2)))
  }

  function Extended(val: Bytes, ino: Inode): Result<Inode>
    requires FIXED_SIZE <= |val|
  {
    if |val| < FIXED_SIZE + 4 then Ok(ino)
    else
      var n := Field(val, FIXED_SIZE, 2);
      if FIXED_SIZE + 4 + 4 * n > |val| then Err(Parse)
      else XFields(val, Metas(val, n), FIXED_SIZE + 4 + 4 * n, ino)
  }

  /** A compressed file without a data stream takes its size from the inode's trailing field. */
  function ResolveSize(ino: Inode, uncompressed: nat): Inode {
    if ino.IsCompressed() && ino.size == 0 && ino.internalFlags / INODE_HAS_UNCOMPRESSED_SIZE % 2 == 1
    then ino.(size := uncompressed) else ino
  }

  function ParsedInode(id: nat, val: Bytes): Result<Inode> {
    if |val| < FIXED_SIZE then Err(Parse)
    else
      var ino :- Extended(val, FixedPart(id, val));
      Ok(ResolveSize(ino, Field(val, 84, 8)))
  }

  // ---------- Inode::parse ----------

  method ParseInode(id: nat, val: Bytes) returns (res: Result<Inode>)
    ensures res == ParsedInode(id, val)
  {
    hide XFields, Metas, Field;
    var r := new Reader(val);
    var fixed :- ParseFixed(r, id);
    var (ino, uncompressed) := fixed;
    if r.Remaining() >= 4 {
      var numExts := r.Uint(2);
      var usedData := r.Uint(2);
      var metas :- ParseMetas(r, numExts.value);
      ino :- ParseXFields(r, metas, ino);
    }
    return Ok(ResolveSize(ino, uncompressed));
  }

  method ParseFixed(r: Reader, id: nat) returns (res: Result<(Inode, nat)>)
    requires r.Valid() && r.pos == 0
    modifies r
    ensures r.Valid()
    ensures if |r.buf| < FIXED_SIZE then res == Err(Parse)
            else res == Ok((FixedPart(id, r.buf), Field(r.buf, 84, 8))) && r.pos == FIXED_SIZE
  {
    hide Field;
    var timed :- ParseTimes(r, id);
    var owned :- ParseOwners(r, timed);
    var mode :- r.Uint(2);
    var _ :- r.Uint(2);
    var uncompressed :- r.Uint(8);
    return Ok((owned.(mode := mode), uncompressed));
  }

  method ParseTimes(r: Reader, id: nat) returns (res: Result<Inode>)
    requires r.Valid() && r.pos == 0
    modifies r
    ensures r.Valid()
    ensures if |r.buf| < 56 then res == Err(Parse)
            else res == Ok(TimedPart(id, r.buf)) && r.pos == 56
  {
    hide Field;
    var parentId :- r.Uint(8);
    var privateId :- r.Uint(8);
    var createTime :- r.Uint(8);
    var modTime :- r.Uint(8);
    var changeTime :- r.Uint(8);
    var accessTime :- r.Uint(8);
    var internalFlags :- r.Uint(8);
    return Ok(Inode(id, parentId, privateId, createTime, modTime, changeTime, accessTime, internalFlags,
                    0, 0, 0, 0, 0, 0, 0, None));
  }

  method ParseOwners(r: Reader, ino: Inode) returns (res: Result<Inode>)
    requires r.Valid() && r.pos == 56
    modifies r
    ensures r.Valid()
    ensures if |r.buf| < 80 then res == Err(Parse)
            else res == Ok(OwnedPart(ino, r.buf)) && r.pos == 80
  {
    hide Field;
    var nchildren :- r.Uint(4);
    var _ :- r.Uint(4);
    var _ :- r.Uint(4);
    var bsdFlags :- r.Uint(4);
    var owner :- r.Uint(4);
    var group :- r.Uint(4);
    return Ok(ino.(nchildrenOrNlink := AsI32(nchildren), bsdFlags := bsdFlags, owner := owner, group := group));
  }

  method ParseMetas(r: Reader, n: nat) returns (res: Result<seq<(nat, nat)>>)
    requires r.Valid() && r.pos == FIXED_SIZE + 4
    modifies r
    ensures r.Valid()
    ensures if FIXED_SIZE + 4 + 4 * n > |r.buf| then res == Err(Parse)
            else res == Ok(Metas(r.buf, n)) && r.pos == FIXED_SIZE + 4 + 4 * n
  {
    hide Field;
    var metas: seq<(nat, nat)> := [];
    for i := 0 to n
      invariant r.Valid() && r.pos == FIXED_SIZE + 4 + 4 * i && metas == Metas(r.buf, i)
    {
      var xtype :- r.Uint(1);
      var _ :- r.Uint(1);
      var size :- r.Uint(2);
      metas := metas + [(xtype, size)];
    }
    return Ok(metas);
  }

  method ParseXFields(r: Reader, metas: seq<(nat, nat)>, ino0: Inode) returns (res: Result<Inode>)
    requires r.Valid()
    modifies r
    ensures r.Valid() && res == XFields(r.buf, metas, old(r.pos), ino0)
  {
    hide Field, CutAtNul;
    var ino := ino0;
    assert metas[0..] == metas;
    for i := 0 to |metas|
      invariant r.Valid()
      invariant XFields(r.buf, metas, old(r.pos), ino0) == XFields(r.buf, metas[i..], r.pos, ino)
    {
      assert metas[i..][1..] == metas[i + 1..];
      var (xtype, size) := metas[i];
      var data :- r.Take(size);
      ino :- ParseField(xtype, data, ino);
      if r.Remaining() >= PadLen(size) {
        var skipped := r.Skip(PadLen(size));
      }
    }
    return Ok(ino);
  }

  method ParseField(xtype: nat, data: Bytes, ino: Inode) returns (res: Result<Inode>)
    ensures res == ApplyField(xtype, data, ino)
  {
    if xtype == INO_EXT_TYPE_NAME {
      return Ok(ino.(name := Some(CutAtNul(data))));
    }
    if xtype == INO_EXT_TYPE_DSTREAM {
      var r := new Reader(data);
      var size :- r.Uint(8);
      var alloced :- r.Uint(8);
      return Ok(ino.(size := size, allocedSize := alloced));
    }
    return Ok(ino);
  }

  // ---------- build_inode ----------

  datatype InodeSpec = InodeSpec(id: nat, parent: nat, name: Bytes, mode: nat, nchildrenOrNlink: int, times: nat,
                                 size: nat, alloced: nat, bsdFlags: nat, internalFlags: nat,
                                 uncompressedSize: nat, hasDstream: bool)
  {
    /** Every field within the width the source declares for it. */
    ghost predicate Typed() {
      && id < U64 && parent < U64 && mode < U16 && -0x8000_0000 <= nchildrenOrNlink < 0x8000_0000 && times < U64
      && size < U64 && alloced < U64 && bsdFlags < U32 && internalFlags < U64 && uncompressedSize < U64
    }
  }

  /** Equal-width fields, one after another. */
  function Pack(vs: seq<nat>, w: nat): (r: Bytes)
    ensures |r| == w * |vs|
  {
    if |vs| == 0 then [] else Pack(vs[..|vs| - 1], w) + LE(vs[|vs| - 1], w)
  }

  lemma PackPush(vs: seq<nat>, v: nat, w: nat)
    ensures Pack(vs + [v], w) == Pack(vs, w) + LE(v, w)
  {
    assert (vs + [v])[..|vs|] == vs;
  }

  function Longs(s: InodeSpec): seq<nat> {
    [s.parent, s.id, s.times, s.times, s.times, s.times, s.internalFlags]
  }

  function Ints(s: InodeSpec): seq<nat> {
    [AsU32(s.nchildrenOrNlink), 0, 1, s.bsdFlags, 501, 20]
  }

  /** The 92 bytes before the extended fields: seven 64-bit fields, six of 32 bits, mode and padding,
      and the uncompressed size. */
  function FixedLayout(longs: seq<nat>, ints: seq<nat>, mode: nat, uncompressed: nat): (r: Bytes)
    requires |longs| == 7 && |ints| == 6
    ensures |r| == FIXED_SIZE
  {
    Pack(longs, 8) + Pack(ints, 4) + Pack([mode, 0], 2) + Pack([uncompressed], 8)
  }

  function FixedBytes(s: InodeSpec): (r: Bytes)
    ensures |r| == FIXED_SIZE
  {
    FixedLayout(Longs(s), Ints(s), s.mode, s.uncompressedSize)
  }

  function NameField(s: InodeSpec): (r: Bytes) {
    s.name + [0] + Zeros(PadLen(|s.name| + 1))
  }

  function StreamField(s: InodeSpec): (r: Bytes)
    ensures |r| == 40
  {
    Pack([s.size, s.alloced, 0, s.size, 0], 8)
  }

  function XHeader(s: InodeSpec, used: nat): (r: Bytes)
    ensures |r| == if s.hasDstream then 12 else 8
  {
    Pack([if s.hasDstream then 2 else 1, used], 2) +
    [INO_EXT_TYPE_NAME, 2] + LE(|s.name| + 1, 2) +
    if s.hasDstream then [INO_EXT_TYPE_DSTREAM, 0x20] + LE(40, 2) else []
  }

  function XData(s: InodeSpec): Bytes {
    NameField(s) + if s.hasDstream then StreamField(s) else []
  }

  function BuildInode(s: InodeSpec): Record
    requires s.id < U64
  {
    Record(Jkey(s.id, APFS_TYPE_INODE), FixedBytes(s) + XHeader(s, |XData(s)|) + XData(s))
  }

  /** What reading the inode back should give: the stream's size unless it has none, and then the
      uncompressed size if the file is compressed and says that it records one. */
  function Expected(s: InodeSpec): Inode {
    var streamSize := if s.hasDstream then s.size else 0;
    var recordsSize := s.bsdFlags / 0x20 % 2 == 1 && s.internalFlags / 0x4_0000 % 2 == 1;
    Inode(s.id, s.parent, s.id, s.times, s.times, s.times, s.times, s.internalFlags, s.nchildrenOrNlink,
          s.bsdFlags, 501, 20, s.mode,
          if streamSize == 0 && recordsSize then s.uncompressedSize else streamSize,
          if s.hasDstream then s.alloced else 0, Some(s.name))
  }

  method WriteInode(s: InodeSpec) returns (r: Record)
    requires s.id < U64
    ensures r == BuildInode(s)
  {
    hide NameField, FixedBytes, StreamField, Jkey, LE, Pack;
    var v := PushFixed(s);
    var xfHdr := [INO_EXT_TYPE_NAME, 2] + LE(|s.name| + 1, 2);
    var xfData := PadName(s);
    if s.hasDstream {
      xfHdr := xfHdr + ([INO_EXT_TYPE_DSTREAM, 0x20] + LE(40, 2));
      var stream := PushStream(s);
      xfData := xfData + stream;
    }
    var counts := PushAll([if s.hasDstream then 2 else 1, |xfData|], 2);
    Assembled(s, counts, xfHdr, xfData);
    v := v + counts + xfHdr + xfData;
    return Record(Jkey(s.id, APFS_TYPE_INODE), v);
  }

  lemma Assembled(s: InodeSpec, counts: Bytes, hdr: Bytes, data: Bytes)
    requires hdr == ([INO_EXT_TYPE_NAME, 2] + LE(|s.name| + 1, 2)) +
                    (if s.hasDstream then [INO_EXT_TYPE_DSTREAM, 0x20] + LE(40, 2) else [])
    requires data == XData(s) && counts == Pack([if s.hasDstream then 2 else 1, |data|], 2)
    ensures FixedBytes(s) + counts + hdr + data == FixedBytes(s) + XHeader(s, |data|) + data
  {
    hide Pack, LE, XData, FixedBytes;
    assert counts + hdr == XHeader(s, |data|);
  }

  method PushStream(s: InodeSpec) returns (v: Bytes)
    ensures v == StreamField(s)
  {
    v := PushAll([s.size, s.alloced, 0, s.size, 0], 8);
  }

  method PadName(s: InodeSpec) returns (xfData: Bytes)
    ensures xfData == NameField(s)
  {
    xfData := s.name + [0];
    while |xfData| % 8 != 0
      invariant |s.name| + 1 <= |xfData| <= |s.name| + 1 + PadLen(|s.name| + 1)
      invariant xfData == s.name + [0] + Zeros(|xfData| - |s.name| - 1)
      decreases |s.name| + 1 + PadLen(|s.name| + 1) - |xfData|
    {
      xfData := xfData + [0];
    }
    assert |xfData| == |s.name| + 1 + PadLen(|s.name| + 1);
  }

  method PushFixed(s: InodeSpec) returns (v: Bytes)
    ensures v == FixedBytes(s)
  {
    var longs := PushAll(Longs(s), 8);
    var ints := PushAll(Ints(s), 4);
    var shorts := PushAll([s.mode, 0], 2);
    var last := PushAll([s.uncompressedSize], 8);
    v := longs + ints + shorts + last;
  }

  /** Append equal-width fields to a value. */
  method PushAll(vs: seq<nat>, w: nat) returns (v: Bytes)
    ensures v == Pack(vs, w)
  {
    v := [];
    for i := 0 to |vs|
      invariant v == Pack(vs[..i], w)
    {
      PackPush(vs[..i], vs[i], w);
      assert vs[..i] + [vs[i]] == vs[..i + 1];
      v := v + LE(vs[i], w);
    }
    assert vs[..|vs|] == vs;
  }

  // ---------- round trip ----------

  lemma {:induction false} PackedAt(pre: Bytes, vs: seq<nat>, w: nat, post: Bytes, i: nat)
    requires i < |vs|
    ensures |pre| + w * i + w <= |pre + Pack(vs, w) + post|
    ensures Field(pre + Pack(vs, w) + post, |pre| + w * i, w) == FromLE(LE(vs[i], w))
  {
    hide Field, LE, Pack;
    var n := |vs| - 1;
    assert w * n + w == w * |vs|;
    PackSplits(pre, vs, w, post, n);
    if i == n {
      PartAt(pre + Pack(vs[..n], w), LE(vs[n], w), post);
    } else {
      PackedAt(pre, vs[..n], w, LE(vs[n], w) + post, i);
    }
  }

  lemma PackSplits(pre: Bytes, vs: seq<nat>, w: nat, post: Bytes, n: nat)
    requires n + 1 == |vs|
    ensures pre + Pack(vs, w) + post == (pre + Pack(vs[..n], w)) + LE(vs[n], w) + post
    ensures pre + Pack(vs, w) + post == pre + Pack(vs[..n], w) + (LE(vs[n], w) + post)
  {
    hide LE;
  }

  ghost predicate Below(vs: seq<nat>, m: nat) {
    forall i :: 0 <= i < |vs| ==> vs[i] < m
  }

  lemma LongsAt(longs: seq<nat>, ints: seq<nat>, mode: nat, unc: nat, rest: Bytes, i: nat)
    requires |longs| == 7 && |ints| == 6 && i < 7 && Below(longs, U64)
    ensures Field(FixedLayout(longs, ints, mode, unc) + rest, 8 * i, 8) == longs[i]
  {
    hide Field, LE, Pack;
    var others := Pack(ints, 4) + Pack([mode, 0], 2) + Pack([unc], 8) + rest;
    assert FixedLayout(longs, ints, mode, unc) + rest == [] + Pack(longs, 8) + others;
    PackedAt([], longs, 8, others, i);
    LE8(longs[i]);
  }

  lemma IntsAt(longs: seq<nat>, ints: seq<nat>, mode: nat, unc: nat, rest: Bytes, i: nat)
    requires |longs| == 7 && |ints| == 6 && i < 6 && Below(ints, U32)
    ensures Field(FixedLayout(longs, ints, mode, unc) + rest, 56 + 4 * i, 4) == ints[i]
  {
    hide Field, LE, Pack;
    var others := Pack([mode, 0], 2) + Pack([unc], 8) + rest;
    assert FixedLayout(longs, ints, mode, unc) + rest == Pack(longs, 8) + Pack(ints, 4) + others;
    PackedAt(Pack(longs, 8), ints, 4, others, i);
    LE4(ints[i]);
  }

  lemma LastAt(longs: seq<nat>, ints: seq<nat>, mode: nat, unc: nat, rest: Bytes)
    requires |longs| == 7 && |ints| == 6 && mode < U16 && unc < U64
    ensures Field(FixedLayout(longs, ints, mode, unc) + rest, 80, 2) == mode
    ensures Field(FixedLayout(longs, ints, mode, unc) + rest, 84, 8) == unc
  {
    hide Field, LE, Pack;
    var pre, a, b := Pack(longs, 8) + Pack(ints, 4), Pack([mode, 0], 2), Pack([unc], 8);
    assert FixedLayout(longs, ints, mode, unc) + rest == pre + a + (b + rest);
    PackedAt(pre, [mode, 0], 2, b + rest, 0);
    LE2(mode);
    assert FixedLayout(longs, ints, mode, unc) + rest == (pre + a) + b + rest;
    PackedAt(pre + a, [unc], 8, rest, 0);
    LE8(unc);
  }

  lemma SignedBack(v: int)
    requires -0x8000_0000 <= v < 0x8000_0000
    ensures AsI32(AsU32(v)) == v
  {
  }

  lemma TimedBack(id: nat, longs: seq<nat>, ints: seq<nat>, mode: nat, unc: nat, rest: Bytes)
    requires |longs| == 7 && |ints| == 6 && Below(longs, U64)
    ensures TimedPart(id, FixedLayout(longs, ints, mode, unc) + rest) ==
            Inode(id, longs[0], longs[1], longs[2], longs[3], longs[4], longs[5], longs[6], 0, 0, 0, 0, 0, 0, 0, None)
  {
    hide Field, FixedLayout;
    LongsAt(longs, ints, mode, unc, rest, 0);
    LongsAt(longs, ints, mode, unc, rest, 1);
    LongsAt(longs, ints, mode, unc, rest, 2);
    LongsAt(longs, ints, mode, unc, rest, 3);
    LongsAt(longs, ints, mode, unc, rest, 4);
    LongsAt(longs, ints, mode, unc, rest, 5);
    LongsAt(longs, ints, mode, unc, rest, 6);
  }

  /** Whatever values the fixed fields hold, each reads back as the inode field of its place. */
  lemma FixedFieldsRoundTrip(id: nat, longs: seq<nat>, ints: seq<nat>, mode: nat, unc: nat, rest: Bytes)
    requires |longs| == 7 && |ints| == 6 && Below(longs, U64) && Below(ints, U32) && mode < U16 && unc < U64
    ensures var val := FixedLayout(longs, ints, mode, unc) + rest;
            && FixedPart(id, val) ==
               Inode(id, longs[0], longs[1], longs[2], longs[3], longs[4], longs[5], longs[6], AsI32(ints[0]),
                     ints[3], ints[4], ints[5], mode, 0, 0, None)
            && Field(val, 84, 8) == unc
  {
    hide Field, FixedLayout;
    TimedBack(id, longs, ints, mode, unc, rest);
    IntsAt(longs, ints, mode, unc, rest, 0);
    IntsAt(longs, ints, mode, unc, rest, 3);
    IntsAt(longs, ints, mode, unc, rest, 4);
    IntsAt(longs, ints, mode, unc, rest, 5);
    LastAt(longs, ints, mode, unc, rest);
  }

  /** The inode without what its extended fields add. */
  function Base(s: InodeSpec): Inode {
    Inode(s.id, s.parent, s.id, s.times, s.times, s.times, s.times, s.internalFlags, s.nchildrenOrNlink,
          s.bsdFlags, 501, 20, s.mode, 0, 0, None)
  }

  lemma FixedBack(s: InodeSpec, rest: Bytes)
    requires s.Typed()
    ensures FixedPart(s.id, FixedBytes(s) + rest) == Base(s)
    ensures Field(FixedBytes(s) + rest, 84, 8) == s.uncompressedSize
  {
    hide Field, FixedLayout, FixedPart;
    FixedFieldsRoundTrip(s.id, Longs(s), Ints(s), s.mode, s.uncompressedSize, rest);
    SignedBack(s.nchildrenOrNlink);
  }

  /** The headers of the extended fields, as a parse collects them. */
  function ExpectedMetas(s: InodeSpec): seq<(nat, nat)> {
    [(INO_EXT_TYPE_NAME, (|s.name| + 1) % U16)] + if s.hasDstream then [(INO_EXT_TYPE_DSTREAM, 40)] else []
  }

  lemma ByteField(s: Bytes, pos: nat)
    requires pos < |s|
    ensures Field(s, pos, 1) == s[pos]
  {
    assert Field(s, pos + 1, 0) == 0;
  }

  /** A header of type, flags and size behind a prefix. */
  lemma MetaAt(pre: Bytes, xtype: byte, flags: byte, size: nat, post: Bytes)
    ensures var v := pre + [xtype, flags] + LE(size, 2) + post;
            Field(v, |pre|, 1) == xtype && Field(v, |pre| + 2, 2) == size % U16
  {
    hide Field, LE;
    var v := pre + [xtype, flags] + LE(size, 2) + post;
    ByteField(v, |pre|);
    Field2At(pre + [xtype, flags], size, post);
  }

  lemma HeaderBack(s: InodeSpec, pre: Bytes, used: nat, post: Bytes)
    requires |pre| == FIXED_SIZE
    ensures var v := pre + XHeader(s, used) + post;
            && Field(v, FIXED_SIZE, 2) == |ExpectedMetas(s)|
            && FIXED_SIZE + 4 + 4 * |ExpectedMetas(s)| + |post| == |v|
            && Metas(v, |ExpectedMetas(s)|) == ExpectedMetas(s)
  {
    hide Field, LE, Pack;
    var v := pre + XHeader(s, used) + post;
    var n := if s.hasDstream then 2 else 1;
    var counts := Pack([n, used], 2);
    var first: Bytes := [INO_EXT_TYPE_NAME, 2];
    var second: Bytes := if s.hasDstream then [INO_EXT_TYPE_DSTREAM, 0x20] + LE(40, 2) else [];
    var size := LE(|s.name| + 1, 2);
    assert v == pre + counts + (first + size + second + post);
    PackedAt(pre, [n, used], 2, first + size + second + post, 0);
    LE2(n);
    assert v == (pre + counts) + first + size + (second + post);
    MetaAt(pre + counts, INO_EXT_TYPE_NAME, 2, |s.name| + 1, second + post);
    if s.hasDstream {
      SecondMeta(pre + counts + first + size, post, v);
    }
  }

  lemma SecondMeta(pre: Bytes, post: Bytes, v: Bytes)
    requires |pre| == FIXED_SIZE + 8 && v == pre + ([INO_EXT_TYPE_DSTREAM, 0x20] + LE(40, 2)) + post
    ensures Field(v, FIXED_SIZE + 8, 1) == INO_EXT_TYPE_DSTREAM && Field(v, FIXED_SIZE + 10, 2) == 40
  {
    hide Field, LE;
    assert v == pre + [INO_EXT_TYPE_DSTREAM, 0x20] + LE(40, 2) + post;
    MetaAt(pre, INO_EXT_TYPE_DSTREAM, 0x20, 40, post);
  }

  /** One extended field of `size` bytes at `pos`, and then the others. */
  lemma FieldStep(v: Bytes, xtype: nat, size: nat, others: seq<(nat, nat)>, pos: nat, ino: Inode)
    ensures XFields(v, [(xtype, size)] + others, pos, ino) ==
            if pos + size > |v| then Err(Parse)
            else
              match ApplyField(xtype, v[pos..pos + size], ino)
              case Err(e) => Err(e)
              case Ok(next) => XFields(v, others, NextField(v, pos, size), next)
  {
    hide ApplyField, NextField;
    assert ([(xtype, size)] + others)[1..] == others;
  }

  function OtherMetas(s: InodeSpec): seq<(nat, nat)> {
    if s.hasDstream then [(INO_EXT_TYPE_DSTREAM, 40)] else []
  }

  lemma StreamKeepsName(s: InodeSpec, v: Bytes, pos: nat, ino: Inode)
    requires XFields(v, OtherMetas(s), pos, ino).Ok?
    ensures XFields(v, OtherMetas(s), pos, ino).value.name == ino.name
  {
    hide Field, CutAtNul;
    if s.hasDstream {
      FieldStep(v, INO_EXT_TYPE_DSTREAM, 40, [], pos, ino);
      assert OtherMetas(s) == [(INO_EXT_TYPE_DSTREAM, 40)] + [];
    }
  }

  lemma StreamApplied(s: InodeSpec, ino: Inode)
    requires s.Typed()
    ensures ApplyField(INO_EXT_TYPE_DSTREAM, StreamField(s), ino) ==
            Ok(ino.(size := s.size, allocedSize := s.alloced))
  {
    hide Field, Pack, LE;
    var data := StreamField(s);
    assert data == [] + data + [];
    PackedAt([], [s.size, s.alloced, 0, s.size, 0], 8, [], 0);
    PackedAt([], [s.size, s.alloced, 0, s.size, 0], 8, [], 1);
    LE8(s.size);
    LE8(s.alloced);
  }

  /** After the name field: the stream's sizes, if there is a stream. */
  lemma StreamBack(s: InodeSpec, pre: Bytes, ino: Inode)
    requires s.Typed()
    ensures XFields(pre + (if s.hasDstream then StreamField(s) else []), OtherMetas(s), |pre|, ino) ==
            Ok(if s.hasDstream then ino.(size := s.size, allocedSize := s.alloced) else ino)
  {
    hide ApplyField, StreamField;
    if s.hasDstream {
      var v := pre + StreamField(s);
      FieldStep(v, INO_EXT_TYPE_DSTREAM, 40, [], |pre|, ino);
      assert v[|pre|..|pre| + 40] == StreamField(s);
      StreamApplied(s, ino);
      assert OtherMetas(s) == [(INO_EXT_TYPE_DSTREAM, 40)] + [];
    }
  }

  lemma NameFirst(s: InodeSpec, pre: Bytes)
    ensures var v := pre + XData(s);
            var n := |s.name| + 1;
            && |pre| + n <= |v| && v[|pre|..|pre| + n] == s.name + [0]
            && NextField(v, |pre|, n) == |pre + NameField(s)|
            && v == (pre + NameField(s)) + (if s.hasDstream then StreamField(s) else [])
  {
    hide StreamField;
  }

  /** With a name that fits, both fields read back. */
  lemma FieldsBack(s: InodeSpec, pre: Bytes, ino: Inode)
    requires s.Typed() && |s.name| + 1 < U16 && 0 !in s.name && ino.size == ino.allocedSize == 0
    ensures XFields(pre + XData(s), ExpectedMetas(s), |pre|, ino) ==
            Ok(ino.(name := Some(s.name), size := if s.hasDstream then s.size else 0,
                    allocedSize := if s.hasDstream then s.alloced else 0))
  {
    hide CutAtNul, StreamField, NameField, NextField, XFields, XData;
    var v, n := pre + XData(s), |s.name| + 1;
    NameFirst(s, pre);
    CutTerminated(s.name);
    FieldStep(v, INO_EXT_TYPE_NAME, n, OtherMetas(s), |pre|, ino);
    StreamBack(s, pre + NameField(s), ino.(name := Some(s.name)));
  }

  /** With one that does not, the fields never read back: the name field alone settles the name. */
  lemma NameLost(s: InodeSpec, head: Bytes, ino: Inode)
    requires |s.name| + 1 >= U16 || 0 in s.name
    ensures var r := XFields(head + XData(s), ExpectedMetas(s), |head|, ino);
            r.Ok? ==> r.value.name != Some(s.name)
  {
    hide CutAtNul, StreamField, XFields, NextField;
    var len, v := (|s.name| + 1) % U16, head + XData(s);
    Wrapped(|s.name| + 1, U16);
    var b := v[|head|..|head| + len];
    CutName(s, head, len);
    FieldStep(v, INO_EXT_TYPE_NAME, len, OtherMetas(s), |head|, ino);
    var next := NextField(v, |head|, len);
    if XFields(v, OtherMetas(s), next, ino.(name := Some(CutAtNul(b)))).Ok? {
      StreamKeepsName(s, v, next, ino.(name := Some(CutAtNul(b))));
    }
  }

  lemma CutName(s: InodeSpec, head: Bytes, len: nat)
    requires if len == |s.name| + 1 then 0 in s.name else len < |s.name|
    ensures CutAtNul((head + XData(s))[|head|..|head| + len]) != s.name
  {
    hide CutAtNul, StreamField;
    var b := (head + XData(s))[|head|..|head| + len];
    assert b == (s.name + [0])[..len];
    if len == |s.name| + 1 {
      assert b == s.name + [0];
    }
    CutShort(b, s.name);
  }

  /** A built inode parses back to every field the reader keeps, its name and its resolved size, exactly
      when the name and its NUL fit 16 bits and the name holds no NUL. */
  lemma InodeRoundTrip(s: InodeSpec)
    requires s.Typed()
    ensures ParsedInode(s.id, BuildInode(s).val) == Ok(Expected(s)) <==> |s.name| + 1 < U16 && 0 !in s.name
  {
    hide XFields, FixedBytes, XHeader, XData, Extended, ExpectedMetas;
    var head := FixedBytes(s) + XHeader(s, |XData(s)|);
    Sections(s, head);
    if |s.name| + 1 < U16 && 0 !in s.name {
      FieldsBack(s, head, Base(s));
    } else {
      NameLost(s, head, Base(s));
    }
  }

  lemma Sections(s: InodeSpec, head: Bytes)
    requires s.Typed() && head == FixedBytes(s) + XHeader(s, |XData(s)|)
    ensures var val := BuildInode(s).val;
            && |val| >= FIXED_SIZE && Field(val, 84, 8) == s.uncompressedSize
            && FixedPart(s.id, val) == Base(s)
            && Extended(val, Base(s)) == XFields(head + XData(s), ExpectedMetas(s), |head|, Base(s))
  {
    hide XFields, Metas, Field, FixedBytes, XHeader, XData, FixedPart, Extended, ExpectedMetas;
    var val, n := BuildInode(s).val, |ExpectedMetas(s)|;
    assert val == FixedBytes(s) + (XHeader(s, |XData(s)|) + XData(s));
    FixedBack(s, XHeader(s, |XData(s)|) + XData(s));
    HeaderBack(s, FixedBytes(s), |XData(s)|, XData(s));
    assert |head| == FIXED_SIZE + 4 + 4 * n;
    ExtendedIs(val, n, ExpectedMetas(s), Base(s));
  }

  lemma ExtendedIs(val: Bytes, n: nat, metas: seq<(nat, nat)>, ino: Inode)
    requires FIXED_SIZE + 4 + 4 * n <= |val| && Field(val, FIXED_SIZE, 2) == n && Metas(val, n) == metas
    ensures Extended(val, ino) == XFields(val, metas, FIXED_SIZE + 4 + 4 * n, ino)
  {
    hide XFields, Field, Metas;
  }
}
