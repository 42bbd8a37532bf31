/** File-system records: how the core parses them (`fs.rs`) and how the writer builds them (`apfs-fixture`). */
module Records {
  import opened Bytes
  import opened Hash
  import opened NodeWriter
  import opened SliceReader

  const APFS_TYPE_INODE := 3
  const APFS_TYPE_XATTR := 4
  const APFS_TYPE_FILE_EXTENT := 8
  const APFS_TYPE_DIR_REC := 9

  const P56 := 0x100_0000_0000_0000
  const P60 := 0x1000_0000_0000_0000

  const INO_EXT_TYPE_NAME := 4
  const INO_EXT_TYPE_DSTREAM := 8
  const UF_COMPRESSED := 0x20
  const INODE_HAS_UNCOMPRESSED_SIZE := 0x4_0000

  // ---------- keys ----------

  function SplitJkey(hdr: nat): (nat, nat) {
    (hdr % P60, hdr / P60 % 256)
  }

  function Or1(a: nat, b: nat): nat {
    if a % 2 == 1 || b % 2 == 1 then 1 else 0
  }

  /** Bitwise OR of two nibbles. */
  function Or4(a: nat, b: nat): nat {
    Or1(a, b) + 2 * Or1(a / 2, b / 2) + 4 * Or1(a / 4, b / 4) + 8 * Or1(a / 8, b / 8)
  }

  /** `id | (rtype << 60)` on 64 bits. */
  function JkeyHeader(id: nat, rtype: nat): nat
    requires id < U64
  {
    id % P60 + P60 * Or4(id / P60, rtype % 16)
  }

  function Jkey(id: nat, rtype: nat): (r: Bytes)
    requires id < U64
    ensures |r| == 8
  {
    LE(JkeyHeader(id, rtype), 8)
  }

  /** Splitting a built key header gives its parts back exactly for 60-bit ids and 4-bit types. */
  lemma JkeyRoundTrip(id: nat, rtype: nat)
    requires id < U64 && rtype < 256
    ensures SplitJkey(JkeyHeader(id, rtype)) == (id, rtype) <==> id < P60 && rtype < 16
    ensures JkeyHeader(id, rtype) < U64
  {
    hide Or4;
    var top := Or4(id / P60, rtype % 16);
    OrSmall(id / P60, rtype % 16);
    OrZero(rtype % 16);
    DivModUnique(JkeyHeader(id, rtype), P60, top, id % P60);
  }

  lemma OrSmall(a: nat, b: nat)
    ensures Or4(a, b) < 16
  {
  }

  lemma OrZero(b: nat)
    requires b < 16
    ensures Or4(0, b) == b
  {
    var b1 := b / 2;
    var b2 := b1 / 2;
    var b3 := b2 / 2;
    assert b == b % 2 + 2 * b1 && b1 == b1 % 2 + 2 * b2 && b2 == b2 % 2 + 2 * b3 && b3 < 2;
    assert b / 4 == b2 && b / 8 == b3;
    OrBit(b);
    OrBit(b1);
    OrBit(b2);
    OrBit(b3);
  }

  lemma OrBit(x: nat)
    ensures Or1(0, x) == x % 2
  {
  }

  /** The (id, type) of a record's key as `cmp_objid_type` and the query callbacks read it. */
  function KeyHeader(key: Bytes): Result<(nat, nat)> {
    var hdr :- ReadLE(key, 0, 8);
    Ok(SplitJkey(hdr))
  }

  lemma KeyHeaderOf(id: nat, rtype: nat, rest: Bytes)
    requires id < P60 && rtype < 16
    ensures KeyHeader(Jkey(id, rtype) + rest) == Ok((id, rtype))
  {
    hide Field, LE, JkeyHeader;
    JkeyRoundTrip(id, rtype);
    var hdr := JkeyHeader(id, rtype);
    Field8At([], hdr, rest);
    assert [] + LE(hdr, 8) + rest == Jkey(id, rtype) + rest;
  }

  // ---------- names ----------

  /** The bytes before the first NUL. */
  function CutAtNul(b: Bytes): (r: Bytes)
    ensures |r| <= |b| && r == b[..|r|]
    ensures 0 !in r
    ensures |r| < |b| ==> b[|r|] == 0
  {
    if |b| == 0 || b[0] == 0 then [] else [b[0]] + CutAtNul(b[1..])
  }

  lemma {:induction false} CutTerminated(name: Bytes)
    ensures CutAtNul(name + [0]) == name <==> 0 !in name
  {
    if |name| > 0 {
      assert (name + [0])[1..] == name[1..] + [0];
      assert name == [name[0]] + name[1..];
      CutTerminated(name[1..]);
    }
  }

  /** A name cut short, its NUL with it, does not come back. */
  lemma CutShort(b: Bytes, name: Bytes)
    requires |b| <= |name| + 1
    ensures b == name + [0] ==> (CutAtNul(b) == name <==> 0 !in name)
    ensures |b| < |name| ==> CutAtNul(b) != name
  {
    CutTerminated(name);
  }

  // ---------- directory records ----------

  /** UTF-8, as `str::as_bytes`. */
  function Utf8(name: CodePoints): (r: Bytes)
    ensures |r| == Utf8Len(name)
  {
    if |name| == 0 then [] else CpUtf8(name[0]) + Utf8(name[1..])
  }

  function CpUtf8(cp: nat): (r: Bytes)
    ensures |r| == CpLen(cp)
  {
    if cp < 0x80 then [cp]
    else if cp < 0x800 then [0xC0 + cp / 0x40 % 0x20, 0x80 + cp % 0x40]
    else if cp < 0x1_0000 then [0xE0 + cp / 0x1000 % 0x10, 0x80 + cp / 0x40 % 0x40, 0x80 + cp % 0x40]
    else [0xF0 + cp / 0x4_0000 % 8, 0x80 + cp / 0x1000 % 0x40, 0x80 + cp / 0x40 % 0x40, 0x80 + cp % 0x40]
  }

  lemma {:induction false} Utf8Nul(name: CodePoints)
    ensures 0 in Utf8(name) <==> 0 in name
  {
    if |name| > 0 {
      Utf8Nul(name[1..]);
      assert 0 in CpUtf8(name[0]) <==> name[0] == 0;
      assert name == [name[0]] + name[1..];
    }
  }

  function BuildDrec(parent: nat, name: CodePoints, caseFold: bool, fileId: nat, dtype: nat, times: nat): Record
    requires parent < U64
  {
    Record(Jkey(parent, APFS_TYPE_DIR_REC) + LE(NameLenAndHash(name, caseFold), 4) + Utf8(name) + [0],
           LE(fileId, 8) + LE(times, 8) + LE(dtype, 2))
  }

  /** The name in a directory-record key, from `pos` on: a length, then that many bytes up to a NUL. */
  function DrecName(key: Bytes, pos: nat, hashed: bool): Result<Bytes> {
    var len :- ReadLE(key, pos, if hashed then 4 else 2);
    var bytes :- TakeAt(key, pos + (if hashed then 4 else 2), if hashed then len % 1024 else len);
    Ok(CutAtNul(bytes))
  }

  method ParseDrecName(r: Reader, hashed: bool) returns (name: Result<Bytes>)
    requires r.Valid()
    modifies r
    ensures r.Valid() && name == DrecName(r.buf, old(r.pos), hashed)
  {
    var len: nat;
    if hashed {
      var lenAndHash :- r.Uint(4);
      len := lenAndHash % 1024;
    } else {
      len :- r.Uint(2);
    }
    var bytes :- r.Take(len);
    return Ok(CutAtNul(bytes));
  }

  /** A built directory record's name reads back exactly when its UTF-8 form fits the 10-bit length
      with its NUL and holds no NUL of its own. */
  lemma DrecNameRoundTrip(parent: nat, name: CodePoints, caseFold: bool, fileId: nat, dtype: nat, times: nat)
    requires parent < P60
    ensures var rec := BuildDrec(parent, name, caseFold, fileId, dtype, times);
            && KeyHeader(rec.key) == Ok((parent, APFS_TYPE_DIR_REC))
            && (DrecName(rec.key, 8, true) == Ok(Utf8(name)) <==> Utf8Len(name) <= 1022 && 0 !in name)
  {
    hide Field, LE, Utf8, NameLenAndHash, JkeyHeader, CutAtNul, KeyHeader;
    var utf8, field := Utf8(name), NameLenAndHash(name, caseFold);
    var key := BuildDrec(parent, name, caseFold, fileId, dtype, times).key;
    assert key == Jkey(parent, APFS_TYPE_DIR_REC) + (LE(field, 4) + utf8 + [0]);
    KeyHeaderOf(parent, APFS_TYPE_DIR_REC, LE(field, 4) + utf8 + [0]);
    assert key == Jkey(parent, APFS_TYPE_DIR_REC) + LE(field, 4) + (utf8 + [0]);
    Field4At(Jkey(parent, APFS_TYPE_DIR_REC), field, utf8 + [0]);
    LengthOf(name, caseFold);
    ModMod(field);
    Utf8Nul(name);
    NameBehind(key, 12, utf8, 1024, (|utf8| + 1) % 1024);
  }

  lemma LengthOf(name: CodePoints, caseFold: bool)
    ensures NameLenAndHash(name, caseFold) % 1024 == (Utf8Len(name) + 1) % 1024
  {
  }

  /** A NUL-terminated name at the end of a key, read through a length kept modulo `m`: it comes back
      exactly when the length survived and the name holds no NUL. */
  lemma NameBehind(key: Bytes, at: nat, name: Bytes, m: nat, len: nat)
    requires at + |name| + 1 == |key| && key[at..] == name + [0] && m > 1
    requires len == (|name| + 1) % m
    ensures at + len <= |key| && (CutAtNul(key[at..at + len]) == name <==> |name| + 1 < m && 0 !in name)
  {
    hide CutAtNul;
    Wrapped(|name| + 1, m);
    assert key[at..at + len] == (name + [0])[..len];
    if len == |name| + 1 {
      assert (name + [0])[..len] == name + [0];
    }
    CutShort((name + [0])[..len], name);
  }

  lemma Wrapped(n: nat, m: nat)
    requires m > 1
    ensures if n < m then n % m == n else n % m <= n - m
  {
    var q := n / m;
    assert n == m * q + n % m;
    MulAtLeast(m, q);
    if n < m {
      DivModUnique(n, m, 0, n);
    }
  }

  lemma ModMod(v: nat)
    ensures v % U32 % 1024 == v % 1024
  {
    assert v == U32 * (v / U32) + v % U32;
    assert U32 * (v / U32) == 1024 * (0x40_0000 * (v / U32));
  }

  /** A directory entry as a listing reports it. */
  datatype DirEntry = DirEntry(name: Bytes, fileId: nat, dateAdded: nat, dtype: nat)

  function ParseDrec(key: Bytes, val: Option<Bytes>, hashed: bool): Result<DirEntry> {
    var name :- DrecName(key, 8, hashed);
    if val.None? then Err(Corrupt)
    else
      var fileId :- ReadLE(val.value, 0, 8);
      var dateAdded :- ReadLE(val.value, 8, 8);
      var flags :- ReadLE(val.value, 16, 2);
      Ok(DirEntry(name, fileId, dateAdded, flags % 16))
  }

  lemma DrecValueRoundTrip(parent: nat, name: CodePoints, caseFold: bool, fileId: nat, dtype: nat, times: nat)
    requires parent < P60 && fileId < U64 && times < U64 && dtype < 16
    requires Utf8Len(name) <= 1022 && 0 !in name
    ensures var rec := BuildDrec(parent, name, caseFold, fileId, dtype, times);
            ParseDrec(rec.key, Some(rec.val), true) == Ok(DirEntry(Utf8(name), fileId, times, dtype))
  {
    hide DrecName, ReadLE, LE, Jkey, NameLenAndHash, Utf8, KeyHeader;
    DrecNameRoundTrip(parent, name, caseFold, fileId, dtype, times);
    DrecFields(fileId, times, dtype);
  }

  lemma DrecFields(fileId: nat, times: nat, dtype: nat)
    requires fileId < U64 && times < U64 && dtype < 16
    ensures var val := LE(fileId, 8) + LE(times, 8) + LE(dtype, 2);
            && ReadLE(val, 0, 8) == Ok(fileId) && ReadLE(val, 8, 8) == Ok(times)
            && ReadLE(val, 16, 2) == Ok(dtype)
  {
    hide Field, LE, ReadLE;
    TwoFields(fileId, times, LE(dtype, 2));
    LastField(LE(fileId, 8) + LE(times, 8), dtype);
  }

  lemma LastField(pre: Bytes, v: nat)
    requires v < U16
    ensures ReadLE(pre + LE(v, 2), |pre|, 2) == Ok(v)
  {
    hide Field, LE;
    Field2At(pre, v, []);
    assert pre + LE(v, 2) + [] == pre + LE(v, 2);
  }

  /** Two 64-bit fields at the start of a value. */
  lemma TwoFields(a: nat, b: nat, rest: Bytes)
    requires a < U64 && b < U64
    ensures var val := LE(a, 8) + LE(b, 8) + rest;
            ReadLE(val, 0, 8) == Ok(a) && ReadLE(val, 8, 8) == Ok(b)
  {
    hide Field, LE;
    assert LE(a, 8) + LE(b, 8) + rest == [] + LE(a, 8) + (LE(b, 8) + rest);
    Field8At([], a, LE(b, 8) + rest);
    Field8At(LE(a, 8), b, rest);
  }

  // ---------- file extents ----------

  datatype FileExtent = FileExtent(logicalAddr: nat, lenBytes: nat, physBlock: nat)

  function BuildFileExtent(id: nat, logical: nat, lenBytes: nat, physBlock: nat): Record
    requires id < U64
  {
    Record(Jkey(id, APFS_TYPE_FILE_EXTENT) + LE(logical, 8), LE(lenBytes, 8) + LE(physBlock, 8) + LE(0, 8))
  }

  function ParseFileExtent(key: Bytes, val: Option<Bytes>): Result<FileExtent> {
    var logical :- ReadLE(key, 8, 8);
    if val.None? then Err(Corrupt)
    else
      var lenAndFlags :- ReadLE(val.value, 0, 8);
      var physBlock :- ReadLE(val.value, 8, 8);
      Ok(FileExtent(logical, lenAndFlags % P56, physBlock))
  }

  /** An extent reads back exactly when its length leaves the flag byte clear. */
  lemma FileExtentRoundTrip(id: nat, logical: nat, lenBytes: nat, physBlock: nat)
    requires id < P60 && logical < U64 && lenBytes < U64 && physBlock < U64
    ensures var rec := BuildFileExtent(id, logical, lenBytes, physBlock);
            && KeyHeader(rec.key) == Ok((id, APFS_TYPE_FILE_EXTENT))
            && (ParseFileExtent(rec.key, Some(rec.val)) == Ok(FileExtent(logical, lenBytes, physBlock)) <==> lenBytes < P56)
  {
    hide Field, LE, JkeyHeader, KeyHeader;
    KeyHeaderOf(id, APFS_TYPE_FILE_EXTENT, LE(logical, 8));
    var k := Jkey(id, APFS_TYPE_FILE_EXTENT);
    assert k + LE(logical, 8) == k + LE(logical, 8) + [];
    Field8At(k, logical, []);
    TwoFields(lenBytes, physBlock, LE(0, 8));
  }

  // ---------- extended attributes ----------

  function BuildNamedXattr(id: nat, name: Bytes, flags: nat, xdata: Bytes): Record
    requires id < U64
  {
    Record(Jkey(id, APFS_TYPE_XATTR) + LE(|name| + 1, 2) + name + [0], LE(flags, 2) + LE(|xdata|, 2) + xdata)
  }

  /** The name in an xattr key. */
  function XattrName(key: Bytes): Result<Bytes> {
    var len :- ReadLE(key, 8, 2);
    var bytes :- TakeAt(key, 10, len);
    Ok(CutAtNul(bytes))
  }

  /** An xattr's value: data in the record itself, or a stream of its own. */
  datatype XattrValue = Embedded(data: Bytes) | Stream(objId: nat, size: nat)

  function ParseXattr(val: Option<Bytes>): Result<XattrValue> {
    if val.None? then Err(Corrupt)
    else
      var flags :- ReadLE(val.value, 0, 2);
      var len :- ReadLE(val.value, 2, 2);
      if flags % 2 == 1 then
        var objId :- ReadLE(val.value, 4, 8);
        var size :- ReadLE(val.value, 12, 8);
        Ok(Stream(objId, size))
      else
        var data :- TakeAt(val.value, 4, len);
        Ok(Embedded(data))
  }

  /** An embedded attribute's name reads back exactly when it and its NUL fit 16 bits and it holds no
      NUL; its data exactly when its length fits 16 bits. */
  lemma XattrRoundTrip(id: nat, name: Bytes, flags: nat, xdata: Bytes)
    requires id < P60 && flags < U16 && flags % 2 == 0
    ensures var rec := BuildNamedXattr(id, name, flags, xdata);
            && KeyHeader(rec.key) == Ok((id, APFS_TYPE_XATTR))
            && (XattrName(rec.key) == Ok(name) <==> |name| + 1 < U16 && 0 !in name)
            && (ParseXattr(Some(rec.val)) == Ok(Embedded(xdata)) <==> |xdata| < U16)
  {
    XattrKey(id, name, flags, xdata);
    XattrData(id, name, flags, xdata);
  }

  lemma XattrKey(id: nat, name: Bytes, flags: nat, xdata: Bytes)
    requires id < P60
    ensures var key := BuildNamedXattr(id, name, flags, xdata).key;
            && KeyHeader(key) == Ok((id, APFS_TYPE_XATTR))
            && (XattrName(key) == Ok(name) <==> |name| + 1 < U16 && 0 !in name)
  {
    hide Field, LE, JkeyHeader, CutAtNul, KeyHeader;
    var n := |name| + 1;
    var k := Jkey(id, APFS_TYPE_XATTR);
    var key := BuildNamedXattr(id, name, flags, xdata).key;
    assert key == k + (LE(n, 2) + name + [0]) && key == k + LE(n, 2) + (name + [0]);
    KeyHeaderOf(id, APFS_TYPE_XATTR, LE(n, 2) + name + [0]);
    Field2At(k, n, name + [0]);
    NameBehind(key, 10, name, U16, n % U16);
  }

  lemma XattrData(id: nat, name: Bytes, flags: nat, xdata: Bytes)
    requires id < P60 && flags < U16 && flags % 2 == 0
    ensures ParseXattr(Some(BuildNamedXattr(id, name, flags, xdata).val)) == Ok(Embedded(xdata)) <==> |xdata| < U16
  {
    hide ReadLE, TakeAt;
    var val := BuildNamedXattr(id, name, flags, xdata).val;
    XattrHeader(flags, xdata);
    XattrBody(LE(flags, 2) + LE(|xdata|, 2), xdata);
  }

  lemma XattrHeader(flags: nat, xdata: Bytes)
    requires flags < U16
    ensures var val := LE(flags, 2) + LE(|xdata|, 2) + xdata;
            ReadLE(val, 0, 2) == Ok(flags) && ReadLE(val, 2, 2) == Ok(|xdata| % U16)
  {
    hide Field, LE;
    var a, b := LE(flags, 2), LE(|xdata|, 2);
    assert a + b + xdata == [] + a + (b + xdata);
    Field2At([], flags, b + xdata);
    Field2At(a, |xdata|, xdata);
  }

  lemma XattrBody(pre: Bytes, xdata: Bytes)
    ensures TakeAt(pre + xdata, |pre|, |xdata| % U16) == Ok(xdata[..|xdata| % U16])
    ensures xdata[..|xdata| % U16] == xdata <==> |xdata| < U16
  {
    assert (pre + xdata)[|pre|..|pre| + |xdata| % U16] == xdata[..|xdata| % U16];
  }
}
