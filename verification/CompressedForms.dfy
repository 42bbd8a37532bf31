/** Compressed files byte for byte: the compression header, which types are read, and where a resource fork
    keeps its blocks. */
module CompressedForms {
  import opened Bytes
  import opened Decmpfs
  import opened RsrcWriter

  /** `compression_header`: the tag "fpmc", the type and the uncompressed size. */
  function HeaderForm(ctype: nat, size: nat): (r: Bytes)
    ensures |r| == 16
  {
    [0x66, 0x70, 0x6D, 0x63] + LE(ctype, 4) + LE(size, 8)
  }

  lemma HeaderIsForm(ctype: nat, size: nat)
    ensures DecmpfsHeader(ctype, size) == HeaderForm(ctype, size)
  {
    hide LE;
    MagicBytes();
  }

  lemma MagicBytes()
    ensures LE(DECMPFS_MAGIC, 4) == [0x66, 0x70, 0x6D, 0x63]
  {
    var v := DECMPFS_MAGIC;
    assert LE(v, 4) == [v % 256] + LE(v / 256, 3);
    assert LE(v / 256, 3) == [v / 256 % 256] + LE(v / 256 / 256, 2);
    assert LE(v / 256 / 256, 2) == [v / 256 / 256 % 256] + LE(v / 256 / 256 / 256, 1);
  }

  /** A compressed piece that should fill `size` bytes: nothing, bytes stored behind one whose low nibble is
      all ones, or a zlib stream, inflated to at most 64 MiB. */
  function Unpacked(z: Zlib, data: Bytes, size: nat): Result<Bytes> {
    if |data| == 0 then Ok([])
    else if data[0] % 0x10 == 0xF then Ok(data[1..])
    else
      match z.inflate(data, Min(size, 0x400_0000))
      case Some(b) => Ok(b)
      case None => Err(Corrupt)
  }

  lemma UnpackedIs(z: Zlib, data: Bytes, size: nat)
    ensures ZlibBlock(z, data, size) == Unpacked(z, data, size)
  {
  }

  /** Which types are read, and from where: 9 stores its data behind one byte and 3 deflates it, both in the
      attribute; 4 keeps it in the resource fork; every other type, LZVN (7, 8), stored forks (10), LZFSE
      (11, 12) and LZBITMAP (14) among them, is not supported. */
  lemma TypesRead(z: Zlib, ctype: nat, size: nat, payload: Bytes, fork: Result<Bytes>, offset: nat, n: nat)
    requires ctype < U32 && size < U64
    ensures CompressedSlice(z, Ok(HeaderForm(ctype, size) + payload), fork, offset, n) ==
            if offset >= size then Ok([])
            else
              match ctype
              case 9 => DataWindow(if |payload| > 0 then payload[1..] else [], offset, Min(n, size - offset))
              case 3 =>
                var data :- Unpacked(z, payload, size);
                DataWindow(data, offset, Min(n, size - offset))
              case 4 =>
                var bytes :- fork;
                RsrcSlice(z, bytes, size, offset, Min(n, size - offset))
              case _ => Err(Unsupported)
  {
    hide HeaderForm, ParseHeader, ZlibBlock, Unpacked, RsrcSlice, DataWindow;
    UnpackedIs(z, payload, size);
    var x := HeaderForm(ctype, size) + payload;
    HeaderIsForm(ctype, size);
    HeaderParses(ctype, size, payload);
    assert x[16..] == payload;
    assert |payload| > 0 ==> x[17..] == payload[1..];
  }

  /** A header with another tag is refused. */
  lemma OtherTagsAreRefused(z: Zlib, x: Bytes, fork: Result<Bytes>, offset: nat, n: nat)
    requires |x| >= 4 && x[..4] != [0x66, 0x70, 0x6D, 0x63]
    ensures CompressedSlice(z, Ok(x), fork, offset, n) == Err(Parse)
  {
    hide Field, LE;
    if Field(x, 0, 4) == DECMPFS_MAGIC {
      MagicBytes();
      Rebuilt(x[..4]);
      assert x[..4][0..4] == x[0..4];
      SameField(x[..4], 0, x, 0, 4);
      assert false;
    }
  }

  lemma {:induction false} Rebuilt(b: Bytes)
    ensures LE(FromLE(b), |b|) == b
  {
    if |b| > 0 {
      Rebuilt(b[1..]);
      assert b[1..][0..|b| - 1] == b[1..|b|];
      SameField(b[1..], 0, b, 1, |b| - 1);
      assert FromLE(b) == b[0] + 256 * FromLE(b[1..]);
    }
  }

  // ---------- resource forks ----------

  /** Four bytes, high byte first. */
  function High4(v: nat): Bytes {
    [v / 0x100_0000 % 0x100, v / 0x1_0000 % 0x100, v / 0x100 % 0x100, v % 0x100]
  }

  lemma BEIsHigh4(v: nat)
    ensures BE(v, 4) == High4(v)
  {
    var a, b, c := v / 256, v / 256 / 256, v / 256 / 256 / 256;
    assert BE(v, 4) == BE(a, 3) + [v % 256];
    assert BE(a, 3) == BE(b, 2) + [a % 256];
    assert BE(b, 2) == BE(c, 1) + [b % 256];
    assert BE(c, 1) == BE(c / 256, 0) + [c % 256];
    assert b == v / 0x1_0000 && c == v / 0x100_0000;
  }

  /** A fork's header, 256 bytes: where the data starts, where it ends, how long it is, and no map. */
  lemma ForkHeaderForm(ss: seq<Bytes>)
    ensures var n := |DataSection(ss)|;
            Fork(ss) == High4(0x100) + High4(0x100 + n) + High4(n) + High4(0) + Zeros(240) + DataSection(ss)
  {
    hide DataSection, BE, High4, Zeros;
    var n := |DataSection(ss)|;
    BEIsHigh4(0x100);
    BEIsHigh4(0x100 + n);
    BEIsHigh4(n);
    BEIsHigh4(0);
  }

  /** The writer's 32-bit offsets suffice exactly when the data behind its first field is below 4 GiB. */
  lemma OffsetsFitIs(ss: seq<Bytes>)
    ensures OffsetsFit(ss) <==> |DataSection(ss)| - 4 < 0x1_0000_0000
  {
    hide LE, Joined, Table;
  }

  /** Stream `i` in the data: the table behind the count gives its offset, from four bytes into the data,
      and its length. */
  lemma StreamPlace(ss: seq<Bytes>, i: nat)
    requires i < |ss| && OffsetsFit(ss)
    ensures |Fork(ss)| >= 0x108 + 8 * |ss| && Field(Fork(ss), 0x104, 4) == |ss|
    ensures var off, len := Field(Fork(ss), 0x108 + 8 * i, 4), Field(Fork(ss), 0x10C + 8 * i, 4);
            len == |ss[i]| && 0x104 + off + len <= |Fork(ss)| && Fork(ss)[0x104 + off..0x104 + off + len] == ss[i]
  {
    hide LE, Joined, Table, ForkHeader, Field;
    var off := |Joined(ss[..i])|;
    var head := ForkHeader(|DataSection(ss)|) + LE(0, 4);
    var pre := head + LE(|ss|, 4);
    var table, joined, fork := Table(ss, 4 + 8 * |ss|), Joined(ss), Fork(ss);
    assert fork == head + LE(|ss|, 4) + (table + joined);
    Field4At(head, |ss|, table + joined);
    assert fork == pre + table + joined && fork == (pre + table) + joined + [];
    JoinedAt(ss, i);
    TableEntry(ss, 4 + 8 * |ss|, i);
    EntryField(pre, table, joined, 8 * i, 4 + 8 * |ss| + off);
    EntryField(pre, table, joined, 8 * i + 4, |ss[i]|);
    Within(pre + table, joined, [], off, off + |ss[i]|);
  }

  /** The streams are those of the content's 64 KiB chunks: an odd one stored behind 0xFF, an even one
      deflated. */
  lemma StreamForm(z: Zlib, content: Bytes, i: nat)
    requires 0x1_0000 * i < |content|
    ensures i < BlockCount(|content|) && 0x1_0000 * (BlockCount(|content|) - 1) < |content| <= 0x1_0000 * BlockCount(|content|)
    ensures var chunk := content[0x1_0000 * i..Min(0x1_0000 * i + 0x1_0000, |content|)];
            Streams(z, content, BlockCount(|content|))[i] == if i % 2 == 1 then [0xFF] + chunk else z.deflate(chunk)
  {
  }

  /** Data one byte shorter than it should be reads as a zero there, in an attribute and in a block. */
  lemma ShortByOneReadsZero(z: Zlib, data: Bytes, fork: Bytes, base: nat, size: nat, i: nat)
    ensures DataWindow(data, |data|, 1) == Ok([0])
    ensures var b := BlockAt(z, fork, base, size, i);
            b.Ok? && |b.value| < 0x1_0000 ==> Content(z, fork, base, size, 0x1_0000 * i + |b.value|, 1) == [0]
  {
    hide BlockAt;
    assert data[|data|..] + Zeros(1) == [0];
    var b := BlockAt(z, fork, base, size, i);
    if b.Ok? && |b.value| < 0x1_0000 {
      var pos := 0x1_0000 * i + |b.value|;
      DivModUnique(pos, 0x1_0000, i, |b.value|);
      assert ContentByte(z, fork, base, size, pos) == 0;
      assert Content(z, fork, base, size, pos, 1)[0] == 0;
    }
  }
}
