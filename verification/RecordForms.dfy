/** The records of the file-system tree, byte for byte: what the writer's builders lay down, written with
    the format's own numbers. With the round trips, the readers of these records are held to the same. */
module RecordForms {
  import opened Bytes
  import opened Hash
  import opened Inodes
  import opened NodeWriter
  import opened Records
  import opened Sorting
  import opened Volume

  /** `j_key_t`: the object id in the low 60 bits, the record's type above it. */
  function KeyForm(id: nat, rtype: nat): Bytes {
    LE(id + rtype * 0x1000_0000_0000_0000, 8)
  }

  lemma KeyIsForm(id: nat, rtype: nat)
    requires id < 0x1000_0000_0000_0000 && rtype < 16
    ensures Jkey(id, rtype) == KeyForm(id, rtype)
  {
    hide LE, Or4;
    assert id / P60 == 0 && id % P60 == id && rtype % 16 == rtype;
    OrZero(rtype);
  }

  /** For any 64-bit id: its low 60 bits are kept, and each of the four above is set in the id or in the type. */
  lemma KeyBits(id: nat, rtype: nat, k: nat)
    requires id < U64 && rtype < 16 && k < 4
    ensures JkeyHeader(id, rtype) % 0x1000_0000_0000_0000 == id % 0x1000_0000_0000_0000
    ensures var top := JkeyHeader(id, rtype) / 0x1000_0000_0000_0000;
            top < 16 && (top / Pow2(k) % 2 == 1 <==> id / 0x1000_0000_0000_0000 / Pow2(k) % 2 == 1 || rtype / Pow2(k) % 2 == 1)
  {
    hide Or4;
    var a, b := id / P60, rtype % 16;
    OrSmall(a, b);
    DivModUnique(JkeyHeader(id, rtype), P60, Or4(a, b), id % P60);
    OrBits(a, b, k);
  }

  lemma OrBits(a: nat, b: nat, k: nat)
    requires a < 16 && b < 16 && k < 4
    ensures Or4(a, b) / Pow2(k) % 2 == 1 <==> a / Pow2(k) % 2 == 1 || b / Pow2(k) % 2 == 1
  {
    hide Or1;
    var p, q, r, s := Or1(a, b), Or1(a / 2, b / 2), Or1(a / 4, b / 4), Or1(a / 8, b / 8);
    OneBit(a, b);
    OneBit(a / 2, b / 2);
    OneBit(a / 4, b / 4);
    OneBit(a / 8, b / 8);
    FourBits(p, q, r, s);
    LowPowers();
  }

  lemma FourBits(p: nat, q: nat, r: nat, s: nat)
    requires p < 2 && q < 2 && r < 2 && s < 2
    ensures var v := p + 2 * q + 4 * r + 8 * s;
            v / 1 % 2 == p && v / 2 % 2 == q && v / 4 % 2 == r && v / 8 % 2 == s
  {
  }

  lemma LowPowers()
    ensures Pow2(0) == 1 && Pow2(1) == 2 && Pow2(2) == 4 && Pow2(3) == 8
  {
    assert Pow2(2) == 4;
  }

  lemma OneBit(a: nat, b: nat)
    ensures Or1(a, b) == (if a % 2 == 1 || b % 2 == 1 then 1 else 0)
  {
  }

  lemma FormIsKey(id: nat, rtype: nat, rest: Bytes)
    requires id < 0x1000_0000_0000_0000 && rtype < 16
    ensures KeyHeader(KeyForm(id, rtype) + rest) == Ok((id, rtype))
  {
    hide LE, KeyHeader, JkeyHeader;
    KeyIsForm(id, rtype);
    KeyHeaderOf(id, rtype, rest);
  }

  /** Text in ASCII. */
  function Ascii(s: string): (r: Bytes)
    ensures |r| == |s|
  {
    seq<byte>(|s|, i requires 0 <= i < |s| => s[i] as int % 0x100)
  }

  lemma AttributeNames()
    ensures XATTR_SYMLINK == Ascii("com.apple.fs.symlink")
    ensures XATTR_DECMPFS == Ascii("com.apple.decmpfs")
    ensures XATTR_RESOURCE_FORK == Ascii("com.apple.ResourceFork")
  {
  }

  /** `j_inode_val_t` of a fresh inode: owner 501, group 20. */
  function InodeFixed(s: InodeSpec): Bytes {
    LE(s.parent, 8) + LE(s.id, 8) + LE(s.times, 8) + LE(s.times, 8) + LE(s.times, 8) + LE(s.times, 8) + LE(s.internalFlags, 8) +
    LE(s.nchildrenOrNlink % 0x1_0000_0000, 4) + LE(0, 4) + LE(1, 4) + LE(s.bsdFlags, 4) + LE(501, 4) + LE(20, 4) +
    LE(s.mode, 2) + LE(0, 2) + LE(s.uncompressedSize, 8)
  }

  /** Its extended fields: a name (type 4), padded to 8 bytes, and for a file a data stream (type 8). */
  function InodeExtended(s: InodeSpec): Bytes {
    var pad := (8 - (|s.name| + 1) % 8) % 8;
    if s.hasDstream then
      LE(2, 2) + LE(|s.name| + 1 + pad + 40, 2) + [4, 2] + LE(|s.name| + 1, 2) + [8, 0x20] + LE(40, 2) +
      s.name + [0] + Zeros(pad) + LE(s.size, 8) + LE(s.alloced, 8) + LE(0, 8) + LE(s.size, 8) + LE(0, 8)
    else
      LE(1, 2) + LE(|s.name| + 1 + pad, 2) + [4, 2] + LE(|s.name| + 1, 2) + s.name + [0] + Zeros(pad)
  }

  lemma PackCons(vs: seq<nat>, v: nat, all: seq<nat>, w: nat)
    requires all == vs + [v]
    ensures Pack(all, w) == Pack(vs, w) + LE(v, w)
  {
    assert all[..|vs|] == vs;
  }

  lemma FixedIsForm(s: InodeSpec)
    ensures FixedBytes(s) == InodeFixed(s)
  {
    hide LE, Pack;
    LongsPacked(s);
    IntsPacked(s);
    ShortsPacked(s.mode, s.uncompressedSize);
  }

  lemma NonePacked(w: nat)
    ensures Pack([], w) == []
  {
  }

  lemma LongsPacked(s: InodeSpec)
    ensures Pack(Longs(s), 8) == LE(s.parent, 8) + LE(s.id, 8) + LE(s.times, 8) + LE(s.times, 8) + LE(s.times, 8) +
                                 LE(s.times, 8) + LE(s.internalFlags, 8)
  {
    hide LE, Pack;
    var p, i, t, f := s.parent, s.id, s.times, s.internalFlags;
    NonePacked(8);
    PackCons([], p, [p], 8);
    PackCons([p], i, [p, i], 8);
    PackCons([p, i], t, [p, i, t], 8);
    PackCons([p, i, t], t, [p, i, t, t], 8);
    PackCons([p, i, t, t], t, [p, i, t, t, t], 8);
    PackCons([p, i, t, t, t], t, [p, i, t, t, t, t], 8);
    PackCons([p, i, t, t, t, t], f, [p, i, t, t, t, t, f], 8);
  }

  lemma IntsPacked(s: InodeSpec)
    ensures Pack(Ints(s), 4) == LE(s.nchildrenOrNlink % 0x1_0000_0000, 4) + LE(0, 4) + LE(1, 4) + LE(s.bsdFlags, 4) +
                                LE(501, 4) + LE(20, 4)
  {
    hide LE, Pack;
    var n, f := AsU32(s.nchildrenOrNlink), s.bsdFlags;
    NonePacked(4);
    PackCons([], n, [n], 4);
    PackCons([n], 0, [n, 0], 4);
    PackCons([n, 0], 1, [n, 0, 1], 4);
    PackCons([n, 0, 1], f, [n, 0, 1, f], 4);
    PackCons([n, 0, 1, f], 501, [n, 0, 1, f, 501], 4);
    PackCons([n, 0, 1, f, 501], 20, [n, 0, 1, f, 501, 20], 4);
  }

  lemma ShortsPacked(mode: nat, uncompressed: nat)
    ensures Pack([mode, 0], 2) == LE(mode, 2) + LE(0, 2) && Pack([uncompressed], 8) == LE(uncompressed, 8)
  {
    hide LE, Pack;
    NonePacked(2);
    NonePacked(8);
    PackCons([], mode, [mode], 2);
    PackCons([mode], 0, [mode, 0], 2);
    PackCons([], uncompressed, [uncompressed], 8);
  }

  lemma ExtendedIsForm(s: InodeSpec)
    ensures XHeader(s, |XData(s)|) + XData(s) == InodeExtended(s)
  {
    hide LE, Pack, Zeros;
    StreamPacked(s);
    CountsPacked(if s.hasDstream then 2 else 1, |XData(s)|);
  }

  lemma StreamPacked(s: InodeSpec)
    ensures StreamField(s) == LE(s.size, 8) + LE(s.alloced, 8) + LE(0, 8) + LE(s.size, 8) + LE(0, 8)
  {
    hide LE, Pack;
    var n, a := s.size, s.alloced;
    NonePacked(8);
    PackCons([], n, [n], 8);
    PackCons([n], a, [n, a], 8);
    PackCons([n, a], 0, [n, a, 0], 8);
    PackCons([n, a, 0], n, [n, a, 0, n], 8);
    PackCons([n, a, 0, n], 0, [n, a, 0, n, 0], 8);
  }

  lemma CountsPacked(n: nat, used: nat)
    ensures Pack([n, used], 2) == LE(n, 2) + LE(used, 2)
  {
    hide LE, Pack;
    NonePacked(2);
    PackCons([], n, [n], 2);
    PackCons([n], used, [n, used], 2);
  }

  /** An inode record. */
  lemma InodeForm(s: InodeSpec)
    requires s.id < 0x1000_0000_0000_0000
    ensures BuildInode(s) == Record(KeyForm(s.id, 3), InodeFixed(s) + InodeExtended(s))
  {
    hide LE, Pack, KeyForm, Jkey, InodeFixed, InodeExtended, FixedBytes, XHeader, XData;
    KeyIsForm(s.id, 3);
    FixedIsForm(s);
    ExtendedIsForm(s);
    assert FixedBytes(s) + XHeader(s, |XData(s)|) + XData(s) == FixedBytes(s) + (XHeader(s, |XData(s)|) + XData(s));
  }

  /** An inode without extended fields: each field of `j_inode_val_t` in its place, no name, and a size only
      where the inode is compressed (flag 0x20) and records it (flag 0x40000). One byte short is an error. */
  lemma BareInodeReads(id: nat, longs: seq<nat>, ints: seq<nat>, mode: nat, unc: nat, rest: Bytes)
    requires |longs| == 7 && |ints| == 6 && Below(longs, U64) && Below(ints, U32) && mode < U16 && unc < U64 && |rest| < 4
    ensures ParsedInode(id, Pack(longs, 8) + Pack(ints, 4) + Pack([mode, 0], 2) + Pack([unc], 8) + rest) ==
            Ok(Inode(id, longs[0], longs[1], longs[2], longs[3], longs[4], longs[5], longs[6],
                     if ints[0] < 0x8000_0000 then ints[0] as int else (ints[0] as int) - 0x1_0000_0000, ints[3], ints[4], ints[5], mode,
                     if ints[3] % 0x40 >= 0x20 && longs[6] % 0x8_0000 >= 0x4_0000 then unc else 0, 0, None))
    ensures forall val: Bytes :: |val| < 92 ==> ParsedInode(id, val) == Err(Parse)
  {
    hide Field, Pack;
    FixedFieldsRoundTrip(id, longs, ints, mode, unc, rest);
    var f, g := ints[3], longs[6];
    assert f % 0x40 == 0x20 * (f / 0x20 % 2) + f % 0x20;
    assert g % 0x8_0000 == 0x4_0000 * (g / 0x4_0000 % 2) + g % 0x4_0000;
  }

  /** A directory record with a hashed key. */
  lemma DrecForm(id: nat, name: CodePoints, caseFold: bool, fileId: nat, dtype: nat, times: nat)
    requires id < 0x1000_0000_0000_0000
    ensures BuildDrec(id, name, caseFold, fileId, dtype, times) ==
            Record(KeyForm(id, 9) + LE(NameLenAndHash(name, caseFold), 4) + Utf8(name) + [0],
                   LE(fileId, 8) + LE(times, 8) + LE(dtype, 2))
  {
    hide LE, KeyForm, Jkey, Utf8, NameLenAndHash;
    KeyIsForm(id, 9);
  }

  lemma ExtentForm(id: nat, logical: nat, len: nat, phys: nat)
    requires id < 0x1000_0000_0000_0000
    ensures BuildFileExtent(id, logical, len, phys) ==
            Record(KeyForm(id, 8) + LE(logical, 8), LE(len, 8) + LE(phys, 8) + LE(0, 8))
  {
    hide LE, KeyForm, Jkey;
    KeyIsForm(id, 8);
  }

  lemma XattrForm(id: nat, name: Bytes, flags: nat, xdata: Bytes)
    requires id < 0x1000_0000_0000_0000
    ensures BuildNamedXattr(id, name, flags, xdata) ==
            Record(KeyForm(id, 4) + LE(|name| + 1, 2) + name + [0], LE(flags, 2) + LE(|xdata|, 2) + xdata)
  {
    hide LE, KeyForm, Jkey;
    KeyIsForm(id, 4);
  }

  /** A link's target is an embedded attribute (flag 2) owned by the file system (flag 4). */
  lemma SymlinkForm(id: nat, target: Bytes)
    requires id < 0x1000_0000_0000_0000
    ensures BuildSymlinkXattr(id, target) == BuildNamedXattr(id, Ascii("com.apple.fs.symlink"), 6, target + [0])
  {
    hide BuildNamedXattr, Ascii;
    AttributeNames();
  }

  /** An extent's length is the low 56 bits of its field; the flags above them do not matter. */
  lemma ExtentReads(id: nat, logical: nat, len: nat, flags: nat, phys: nat, crypto: Bytes)
    requires id < 0x1000_0000_0000_0000 && logical < U64 && len < 0x100_0000_0000_0000 && flags < 0x100 && phys < U64
    ensures ParseFileExtent(KeyForm(id, 8) + LE(logical, 8), Some(LE(len + flags * 0x100_0000_0000_0000, 8) + LE(phys, 8) + crypto)) ==
            Ok(FileExtent(logical, len, phys))
  {
    hide Field, LE, KeyForm;
    var k := KeyForm(id, 8);
    FormSize(id, 8);
    assert k + LE(logical, 8) == k + LE(logical, 8) + [];
    Field8At(k, logical, []);
    TwoFields(len + flags * 0x100_0000_0000_0000, phys, crypto);
  }

  lemma FormSize(id: nat, rtype: nat)
    ensures |KeyForm(id, rtype)| == 8
  {
  }

  /** Hashed keys: the length is the low 10 bits of the field, whatever the hash above it; of the value's
      flags the low 4 bits are the type. */
  lemma HashedKeyReads(id: nat, name: Bytes, hash: nat, fileId: nat, times: nat, dtype: nat, flags: nat)
    requires id < 0x1000_0000_0000_0000 && |name| + 1 < 0x400 && 0 !in name && hash < 0x40_0000
    requires fileId < U64 && times < U64 && dtype < 0x10 && flags < 0x1000
    ensures ParseDrec(KeyForm(id, 9) + LE(|name| + 1 + 0x400 * hash, 4) + name + [0],
                      Some(LE(fileId, 8) + LE(times, 8) + LE(dtype + 0x10 * flags, 2)), true) ==
            Ok(DirEntry(name, fileId, times, dtype))
  {
    hide Field, LE, CutAtNul, KeyForm;
    var k := KeyForm(id, 9);
    FormSize(id, 9);
    var field := |name| + 1 + 0x400 * hash;
    LowPart(|name| + 1, hash, 0x400, 0x40_0000);
    LowPart(dtype, flags, 0x10, 0x1000);
    var key := k + LE(field, 4) + name + [0];
    assert key == k + LE(field, 4) + (name + [0]);
    Field4At(k, field, name + [0]);
    assert key[12..12 + |name| + 1] == name + [0];
    CutTerminated(name);
    TwoFields(fileId, times, LE(dtype + 0x10 * flags, 2));
    LastField(LE(fileId, 8) + LE(times, 8), dtype + 0x10 * flags);
  }

  lemma LowPart(low: nat, high: nat, m: nat, n: nat)
    requires low < m && high < n
    ensures (low + m * high) % m == low && low + m * high < m * n
  {
    DivModUnique(low + m * high, m, high, low);
    MulAtLeast(m, n - high);
    Spread(m, n, high);
  }

  lemma Spread(m: int, n: int, k: int)
    ensures m * (n - k) == m * n - m * k
  {
  }

  /** Keys that are not hashed: a 16-bit length, the name and its NUL. */
  lemma PlainKeyReads(id: nat, name: Bytes, fileId: nat, times: nat, dtype: nat)
    requires id < 0x1000_0000_0000_0000 && |name| + 1 < U16 && 0 !in name && fileId < U64 && times < U64 && dtype < 16
    ensures ParseDrec(KeyForm(id, 9) + LE(|name| + 1, 2) + name + [0], Some(LE(fileId, 8) + LE(times, 8) + LE(dtype, 2)), false) ==
            Ok(DirEntry(name, fileId, times, dtype))
  {
    hide Field, LE, CutAtNul;
    var k := KeyForm(id, 9);
    var key := k + LE(|name| + 1, 2) + name + [0];
    assert key == k + LE(|name| + 1, 2) + (name + [0]);
    Field2At(k, |name| + 1, name + [0]);
    assert key[10..10 + |name| + 1] == name + [0];
    CutTerminated(name);
    DrecFields(fileId, times, dtype);
  }

  // ---------- names ----------

  /** A UTF-8 form of one code point: a lead byte that says how many bytes there are, then continuations. */
  predicate OneForm(w: Bytes) {
    && 0 < |w| <= 4
    && (|w| == 1 ==> w[0] < 0x80) && (|w| == 2 ==> 0xC0 <= w[0] < 0xE0)
    && (|w| == 3 ==> 0xE0 <= w[0] < 0xF0) && (|w| == 4 ==> 0xF0 <= w[0] < 0xF8)
    && forall i :: 1 <= i < |w| ==> 0x80 <= w[i] < 0xC0
  }

  /** The code point it stands for. */
  function FormValue(w: Bytes): int
    requires OneForm(w)
  {
    var a: int := w[0];
    if |w| == 1 then a
    else
      var b: int := w[1];
      if |w| == 2 then 0x40 * (a - 0xC0) + (b - 0x80)
      else
        var c: int := w[2];
        if |w| == 3 then 0x1000 * (a - 0xE0) + 0x40 * (b - 0x80) + (c - 0x80)
        else
          var d: int := w[3];
          0x4_0000 * (a - 0xF0) + 0x1000 * (b - 0x80) + 0x40 * (c - 0x80) + (d - 0x80)
  }

  /** A code point is encoded by a form of it, and by the shortest. */
  lemma EncodedShortest(cp: nat)
    requires cp < 0x11_0000
    ensures OneForm(CpUtf8(cp)) && FormValue(CpUtf8(cp)) == cp
    ensures forall w :: OneForm(w) && FormValue(w) == cp ==> |w| >= |CpUtf8(cp)|
  {
    hide OneForm, FormValue, CpUtf8;
    EncodedValue(cp);
    forall w | OneForm(w) && FormValue(w) == cp
      ensures |w| >= |CpUtf8(cp)|
    {
      FormBound(w);
    }
  }

  lemma FormBound(w: Bytes)
    requires OneForm(w)
    ensures |w| == 1 ==> FormValue(w) < 0x80
    ensures |w| == 2 ==> FormValue(w) < 0x800
    ensures |w| == 3 ==> FormValue(w) < 0x1_0000
    ensures 0 < |w| <= 4
  {
  }

  lemma EncodedValue(cp: nat)
    requires cp < 0x11_0000
    ensures OneForm(CpUtf8(cp)) && FormValue(CpUtf8(cp)) == cp
  {
    hide OneForm, FormValue, CpUtf8;
    if 0x1_0000 <= cp {
      FourByteValue(cp);
    } else if 0x800 <= cp {
      ThreeByteValue(cp);
    } else {
      ShortValue(cp);
    }
  }

  lemma ShortValue(cp: nat)
    requires cp < 0x800
    ensures OneForm(CpUtf8(cp)) && FormValue(CpUtf8(cp)) == cp
  {
  }

  lemma ThreeByteValue(cp: nat)
    requires 0x800 <= cp < 0x1_0000
    ensures OneForm(CpUtf8(cp)) && FormValue(CpUtf8(cp)) == cp
  {
    Digits64(cp);
  }

  lemma FourByteValue(cp: nat)
    requires 0x1_0000 <= cp < 0x11_0000
    ensures OneForm(CpUtf8(cp)) && FormValue(CpUtf8(cp)) == cp
  {
    Digits64(cp);
    Digits64(cp / 0x40);
  }

  lemma Digits64(v: nat)
    ensures v == 0x1000 * (v / 0x1000) + 0x40 * (v / 0x40 % 0x40) + v % 0x40
    ensures v / 0x40 / 0x1000 == v / 0x4_0000 && v / 0x40 / 0x40 == v / 0x1000
  {
    var u := v / 0x40;
    assert v == 0x40 * u + v % 0x40;
    assert u / 0x40 == v / 0x1000 && u == 0x40 * (u / 0x40) + u % 0x40;
  }

  // ---------- the order the writer sorts by ----------

  /** Byte order: a prefix, or smaller where the two first differ. */
  ghost predicate Precedes(a: Bytes, b: Bytes) {
    a <= b || exists k :: 0 <= k < |a| && k < |b| && a[..k] == b[..k] && a[k] < b[k]
  }

  lemma {:induction false} BytesLeIs(a: Bytes, b: Bytes)
    ensures BytesLe(a, b) <==> Precedes(a, b)
  {
    if |a| > 0 && |b| > 0 {
      BytesLeIs(a[1..], b[1..]);
      if a[0] == b[0] {
        SameHead(a, b);
      } else if a[0] < b[0] {
        assert a[..0] == b[..0] && a[0] < b[0];
      } else {
        forall k | 0 <= k < |a| && k < |b|
          ensures a[..k] != b[..k] || a[k] >= b[k]
        {
          if k > 0 {
            assert a[..k][0] == a[0] && b[..k][0] == b[0];
          }
        }
      }
    }
  }

  lemma SameHead(a: Bytes, b: Bytes)
    requires |a| > 0 && |b| > 0 && a[0] == b[0]
    ensures Precedes(a, b) <==> Precedes(a[1..], b[1..])
  {
    hide Precedes;
    if Precedes(a, b) {
      TailPrecedes(a, b);
    }
    if Precedes(a[1..], b[1..]) {
      HeadPrecedes(a, b);
    }
  }

  lemma TailPrecedes(a: Bytes, b: Bytes)
    requires |a| > 0 && |b| > 0 && a[0] == b[0] && Precedes(a, b)
    ensures Precedes(a[1..], b[1..])
  {
    var s, t := a[1..], b[1..];
    if a <= b {
      assert s == t[..|s|];
    } else {
      var k :| 0 <= k < |a| && k < |b| && a[..k] == b[..k] && a[k] < b[k];
      assert a[..k][1..] == s[..k - 1] && b[..k][1..] == t[..k - 1];
      assert s[..k - 1] == t[..k - 1] && s[k - 1] < t[k - 1];
    }
  }

  lemma HeadPrecedes(a: Bytes, b: Bytes)
    requires |a| > 0 && |b| > 0 && a[0] == b[0] && Precedes(a[1..], b[1..])
    ensures Precedes(a, b)
  {
    var s, t := a[1..], b[1..];
    assert a == [a[0]] + s && b == [b[0]] + t;
    if s <= t {
      assert a <= b;
    } else {
      var k :| 0 <= k < |s| && k < |t| && s[..k] == t[..k] && s[k] < t[k];
      assert a[..k + 1] == [a[0]] + s[..k] && b[..k + 1] == [b[0]] + t[..k];
      assert a[..k + 1] == b[..k + 1] && a[k + 1] < b[k + 1];
    }
  }

  /** Within one object and type: directory records by hash, length aside, then by name; extents by their
      logical address; attributes by name; of other types, all alike. */
  ghost predicate WithinType(rtype: nat, a: Bytes, b: Bytes) {
    if rtype == 9 then
      && |a| >= 12 && |b| >= 12
      && var h, g := Field(a, 8, 4) / 0x400, Field(b, 8, 4) / 0x400;
      h < g || (h == g && Precedes(a[12..], b[12..]))
    else if rtype == 8 then |a| >= 16 && |b| >= 16 && Field(a, 8, 8) <= Field(b, 8, 8)
    else if rtype == 4 then |a| >= 10 && |b| >= 10 && Precedes(a[10..], b[10..])
    else true
  }

  /** Object id, then type, then the order within the type. */
  ghost predicate InOrder(a: Bytes, b: Bytes) {
    && |a| >= 8 && |b| >= 8
    && var p, q := Field(a, 0, 8) % 0x1000_0000_0000_0000, Field(b, 0, 8) % 0x1000_0000_0000_0000;
    var s, t := Field(a, 0, 8) / 0x1000_0000_0000_0000, Field(b, 0, 8) / 0x1000_0000_0000_0000;
    p < q || (p == q && (s < t || (s == t && WithinType(s, a, b))))
  }

  /** Sorted records lie in that order. */
  lemma SortOrder(recs: seq<Record>, i: nat, j: nat)
    requires AllSortable(recs) && i < j < |Sort(recs)|
    ensures InOrder(Sort(recs)[i].key, Sort(recs)[j].key)
  {
    hide Sortable, Sort, InOrder, KeyOf, Le;
    SortSorts(recs);
    var x, y := Sort(recs)[i], Sort(recs)[j];
    assert x in Sort(recs) && y in Sort(recs);
    KeysInOrder(x, y);
  }

  lemma KeysInOrder(x: Record, y: Record)
    requires Sortable(x) && Sortable(y) && Le(KeyOf(x), KeyOf(y))
    ensures InOrder(x.key, y.key)
  {
    hide Field, BytesLe, Precedes;
    HeaderType(x.key);
    HeaderType(y.key);
    BytesLeIs(KeyOf(x).name, KeyOf(y).name);
    if |x.key| >= 12 && |y.key| >= 12 {
      Multiples(Field(x.key, 8, 4), Field(y.key, 8, 4));
    }
  }

  lemma HeaderType(key: Bytes)
    requires |key| >= 8
    ensures Field(key, 0, 8) / 0x1000_0000_0000_0000 < 16
  {
    FieldBound(key, 0, 8);
    Pow256Sizes();
  }

  lemma Multiples(x: nat, y: nat)
    ensures x / 0x400 * 0x400 < y / 0x400 * 0x400 <==> x / 0x400 < y / 0x400
    ensures x / 0x400 * 0x400 == y / 0x400 * 0x400 <==> x / 0x400 == y / 0x400
  {
  }
}
