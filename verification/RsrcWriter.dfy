/** The writer's compressed resource forks (`build_cmpf_rsrc`), and that the reader reads them back. */
module RsrcWriter {
  import opened Bytes
  import opened Decmpfs
  import opened FileRead

  const DATA_OFFS := 0x100

  function BlockCount(n: nat): nat {
    (n + RSRC_BLOCK_SIZE - 1) / RSRC_BLOCK_SIZE
  }

  function Chunk(content: Bytes, i: nat): Bytes
    requires i < BlockCount(|content|)
  {
    content[i * RSRC_BLOCK_SIZE..Min((i + 1) * RSRC_BLOCK_SIZE, |content|)]
  }

  /** Odd blocks are stored behind a marker byte, even ones deflated. */
  function Stream(z: Zlib, content: Bytes, i: nat): Bytes
    requires i < BlockCount(|content|)
  {
    if i % 2 == 1 then [0xFF] + Chunk(content, i) else z.deflate(Chunk(content, i))
  }

  function Streams(z: Zlib, content: Bytes, n: nat): (r: seq<Bytes>)
    requires n <= BlockCount(|content|)
    ensures |r| == n
  {
    seq<Bytes>(n, i requires 0 <= i < n => Stream(z, content, i))
  }

  function Joined(ss: seq<Bytes>): Bytes {
    if |ss| == 0 then [] else Joined(ss[..|ss| - 1]) + ss[|ss| - 1]
  }

  /** Offset and length of each stream, the first one at `base`. */
  function Table(ss: seq<Bytes>, base: nat): (r: Bytes)
    ensures |r| == 8 * |ss|
  {
    if |ss| == 0 then []
    else
      var n := |ss| - 1;
      Table(ss[..n], base) + LE(base + |Joined(ss[..n])|, 4) + LE(|ss[n]|, 4)
  }

  function DataSection(ss: seq<Bytes>): Bytes {
    LE(0, 4) + LE(|ss|, 4) + Table(ss, 4 + 8 * |ss|) + Joined(ss)
  }

  function ForkHeader(n: nat): (r: Bytes)
    ensures |r| == DATA_OFFS
  {
    BE(DATA_OFFS, 4) + BE(DATA_OFFS + n, 4) + BE(n, 4) + BE(0, 4) + Zeros(DATA_OFFS - 16)
  }

  function Fork(ss: seq<Bytes>): Bytes {
    ForkHeader(|DataSection(ss)|) + DataSection(ss)
  }

  /** The stream offsets fit 32 bits; the writer's running sum overflows otherwise. */
  predicate OffsetsFit(ss: seq<Bytes>) {
    4 + 8 * |ss| + |Joined(ss)| < U32
  }

  // ---------- build_cmpf_rsrc ----------

  method BuildCmpfRsrc(z: Zlib, content: Bytes) returns (blob: Bytes)
    requires OffsetsFit(Streams(z, content, BlockCount(|content|)))
    ensures blob == Fork(Streams(z, content, BlockCount(|content|)))
  {
    hide LE, BE, Table, Joined, Streams;
    var streams := MakeStreams(z, content);
    var table := WriteTable(streams);
    var joined := Join(streams);
    var data := LE(0, 4) + LE(|streams|, 4) + table + joined;
    blob := BE(DATA_OFFS, 4) + BE(DATA_OFFS + |data|, 4) + BE(|data|, 4) + BE(0, 4) + Zeros(DATA_OFFS - 16);
    blob := blob + data;
  }

  method MakeStreams(z: Zlib, content: Bytes) returns (streams: seq<Bytes>)
    ensures streams == Streams(z, content, BlockCount(|content|))
  {
    streams := [];
    for i := 0 to BlockCount(|content|)
      invariant streams == Streams(z, content, i)
    {
      var chunk := Chunk(content, i);
      if i % 2 == 1 {
        streams := streams + [[0xFF] + chunk];
      } else {
        streams := streams + [z.deflate(chunk)];
      }
    }
  }

  method WriteTable(ss: seq<Bytes>) returns (table: Bytes)
    ensures table == Table(ss, 4 + 8 * |ss|)
  {
    var pos := 4 + 8 * |ss|;
    table := [];
    for i := 0 to |ss|
      invariant table == Table(ss[..i], 4 + 8 * |ss|) && pos == 4 + 8 * |ss| + |Joined(ss[..i])|
    {
      assert ss[..i + 1][..i] == ss[..i];
      table := table + LE(pos, 4) + LE(|ss[i]|, 4);
      pos := pos + |ss[i]|;
    }
    assert ss[..|ss|] == ss;
  }

  method Join(ss: seq<Bytes>) returns (data: Bytes)
    ensures data == Joined(ss)
  {
    data := [];
    for i := 0 to |ss|
      invariant data == Joined(ss[..i])
    {
      assert ss[..i + 1][..i] == ss[..i];
      data := data + ss[i];
    }
    assert ss[..|ss|] == ss;
  }

  // ---------- where stream i lies ----------

  lemma {:induction false} TableEntry(ss: seq<Bytes>, base: nat, i: nat)
    requires i < |ss|
    ensures Table(ss, base)[8 * i..8 * i + 4] == LE(base + |Joined(ss[..i])|, 4)
    ensures Table(ss, base)[8 * i + 4..8 * i + 8] == LE(|ss[i]|, 4)
  {
    hide LE, Joined;
    var n := |ss| - 1;
    var t := Table(ss[..n], base);
    if i < n {
      TableEntry(ss[..n], base, i);
      assert ss[..n][..i] == ss[..i];
      assert Table(ss, base)[8 * i..8 * i + 4] == t[8 * i..8 * i + 4];
      assert Table(ss, base)[8 * i + 4..8 * i + 8] == t[8 * i + 4..8 * i + 8];
    } else {
      var off, len := LE(base + |Joined(ss[..n])|, 4), LE(|ss[n]|, 4);
      assert (t + off + len)[8 * n..8 * n + 4] == off && (t + off + len)[8 * n + 4..8 * n + 8] == len;
    }
  }

  lemma {:induction false} JoinedAt(ss: seq<Bytes>, i: nat)
    requires i < |ss|
    ensures var off := |Joined(ss[..i])|;
            off + |ss[i]| <= |Joined(ss)| && Joined(ss)[off..off + |ss[i]|] == ss[i]
  {
    var n := |ss| - 1;
    if i < n {
      JoinedAt(ss[..n], i);
      assert ss[..n][..i] == ss[..i];
      var off := |Joined(ss[..i])|;
      assert Joined(ss)[off..off + |ss[i]|] == Joined(ss[..n])[off..off + |ss[i]|];
    }
  }

  lemma Within(pre: Bytes, mid: Bytes, post: Bytes, a: nat, b: nat)
    requires a <= b <= |mid|
    ensures (pre + mid + post)[|pre| + a..|pre| + b] == mid[a..b]
  {
  }

  /** A 32-bit field of a part, read through the whole. */
  lemma EntryField(pre: Bytes, mid: Bytes, post: Bytes, a: nat, v: nat)
    requires a + 4 <= |mid| && mid[a..a + 4] == LE(v, 4) && v < U32
    ensures ReadLE(pre + mid + post, |pre| + a, 4) == Ok(v)
  {
    hide LE, Field;
    Within(pre, mid, post, a, a + 4);
    FieldIs(pre + mid + post, |pre| + a, 4, LE(v, 4));
    LE4(v);
  }

  /** Block `i` of a written fork is stream `i`, decoded. */
  lemma StreamIsBlock(z: Zlib, ss: seq<Bytes>, size: nat, i: nat)
    requires i < |ss| && OffsetsFit(ss)
    ensures BlockAt(z, Fork(ss), DATA_OFFS + 4, size, i) == ZlibBlock(z, ss[i], BlockLen(size, i))
  {
    hide ZlibBlock, BlockLen, LE, Joined, Table, ForkHeader, ReadLE;
    var off := |Joined(ss[..i])|;
    var pre := ForkHeader(|DataSection(ss)|) + LE(0, 4) + LE(|ss|, 4);
    var table, joined, fork := Table(ss, 4 + 8 * |ss|), Joined(ss), Fork(ss);
    assert fork == pre + table + joined && fork == (pre + table) + joined + [];
    JoinedAt(ss, i);
    TableEntry(ss, 4 + 8 * |ss|, i);
    EntryField(pre, table, joined, 8 * i, 4 + 8 * |ss| + off);
    EntryField(pre, table, joined, 8 * i + 4, |ss[i]|);
    Within(pre + table, joined, [], off, off + |ss[i]|);
  }

  lemma ForkOpens(ss: seq<Bytes>, size: nat)
    requires |ss| == BlockCount(size) && OffsetsFit(ss)
    ensures TableBase(Fork(ss), size) == Ok(DATA_OFFS + 4)
  {
    hide LE, BE, Field, FromBE;
    var fork, n := Fork(ss), |DataSection(ss)|;
    assert fork[0..4] == BE(DATA_OFFS, 4);
    BE4(DATA_OFFS);
    var head := ForkHeader(n) + LE(0, 4);
    var rest := Table(ss, 4 + 8 * |ss|) + Joined(ss);
    assert fork == head + LE(|ss|, 4) + rest;
    Field4At(head, |ss|, rest);
  }

  // ---------- round trip ----------

  lemma StreamDecodes(z: Zlib, content: Bytes, i: nat)
    requires z.Lawful() && i < BlockCount(|content|)
    ensures ZlibBlock(z, Stream(z, content, i), BlockLen(|content|, i)) == Ok(Chunk(content, i))
    ensures |Chunk(content, i)| == BlockLen(|content|, i)
  {
    var b := Chunk(content, i);
    if i % 2 == 1 {
      assert Stream(z, content, i)[1..] == b;
    } else {
      assert z.deflate(b)[0] % 16 == 8;
      assert z.inflate(z.deflate(b), |b|) == Some(b);
    }
  }

  /** Reading any window of a written fork gives exactly that slice of the content. */
  lemma ForkRoundTrip(z: Zlib, content: Bytes, offset: nat, n: nat)
    requires z.Lawful() && offset + n <= |content|
    requires OffsetsFit(Streams(z, content, BlockCount(|content|)))
    ensures var fork := Fork(Streams(z, content, BlockCount(|content|)));
            && TableBase(fork, |content|).Ok?
            && WellFormed(z, fork, TableBase(fork, |content|).value, |content|)
            && RsrcSlice(z, fork, |content|, offset, n) == Ok(content[offset..offset + n])
  {
    hide Fork, OffsetsFit, BlockAt, TableBase, RsrcSlice, Decoded;
    var size, ss := |content|, Streams(z, content, BlockCount(|content|));
    var fork, base := Fork(ss), DATA_OFFS + 4;
    ForkOpens(ss, size);
    forall i: nat | i * RSRC_BLOCK_SIZE < size
      ensures Decodes(z, fork, base, size, i) && BlockAt(z, fork, base, size, i) == Ok(Chunk(content, i))
    {
      StreamIsBlock(z, ss, size, i);
      StreamDecodes(z, content, i);
    }
    RandomAccess(z, fork, base, size, offset, n);
    DecodedIs(z, fork, base, size, BlockCount(size));
    ContentIs(z, fork, base, content);
  }

  lemma ContentIs(z: Zlib, fork: Bytes, base: nat, content: Bytes)
    requires forall i: nat :: i * RSRC_BLOCK_SIZE < |content| ==> BlockAt(z, fork, base, |content|, i) == Ok(Chunk(content, i))
    ensures Content(z, fork, base, |content|, 0, |content|) == content
  {
    hide BlockAt;
    forall pos | 0 <= pos < |content|
      ensures ContentByte(z, fork, base, |content|, pos) == content[pos]
    {
      assert BlockAt(z, fork, base, |content|, pos / RSRC_BLOCK_SIZE) == Ok(Chunk(content, pos / RSRC_BLOCK_SIZE));
    }
  }

  // ---------- whole compressed files ----------

  function DecmpfsHeader(algo: nat, size: nat): (r: Bytes)
    ensures |r| == 16
  {
    LE(DECMPFS_MAGIC, 4) + LE(algo, 4) + LE(size, 8)
  }

  lemma HeaderParses(algo: nat, size: nat, rest: Bytes)
    requires algo < U32 && size < U64
    ensures ParseHeader(DecmpfsHeader(algo, size) + rest) == Ok(Header(algo, size))
  {
    hide LE, Field;
    var a, b, c := LE(DECMPFS_MAGIC, 4), LE(algo, 4), LE(size, 8);
    var x := DecmpfsHeader(algo, size) + rest;
    assert x == [] + a + (b + c + rest) && x == a + b + (c + rest) && x == (a + b) + c + rest;
    Field4At([], DECMPFS_MAGIC, b + c + rest);
    Field4At(a, algo, c + rest);
    Field8At(a + b, size, rest);
  }

  /** A file stored in its attribute behind one prefix byte. */
  lemma PlainRoundTrip(z: Zlib, content: Bytes, rsrc: Result<Bytes>, offset: nat, n: nat)
    requires |content| < U64
    ensures CompressedSlice(z, Ok(DecmpfsHeader(TYPE_PLAIN_XATTR, |content|) + ([0xFF] + content)), rsrc, offset, n) ==
            Ok(Slice(content, offset, n))
  {
    hide DecmpfsHeader, ParseHeader;
    var x := DecmpfsHeader(TYPE_PLAIN_XATTR, |content|) + ([0xFF] + content);
    HeaderParses(TYPE_PLAIN_XATTR, |content|, [0xFF] + content);
    assert x[17..] == content;
  }

  /** A file deflated into its attribute. */
  lemma DeflatedRoundTrip(z: Zlib, content: Bytes, rsrc: Result<Bytes>, offset: nat, n: nat)
    requires z.Lawful() && |content| <= MAX_INFLATE
    ensures CompressedSlice(z, Ok(DecmpfsHeader(TYPE_ZLIB_XATTR, |content|) + z.deflate(content)), rsrc, offset, n) ==
            Ok(Slice(content, offset, n))
  {
    hide DecmpfsHeader, ParseHeader;
    var stream := z.deflate(content);
    var x := DecmpfsHeader(TYPE_ZLIB_XATTR, |content|) + stream;
    HeaderParses(TYPE_ZLIB_XATTR, |content|, stream);
    assert x[16..] == stream && stream[0] % 16 == 8;
    assert z.inflate(stream, |content|) == Some(content);
  }

  /** A file compressed into a resource fork. */
  lemma ForkFileRoundTrip(z: Zlib, content: Bytes, offset: nat, n: nat)
    requires z.Lawful() && OffsetsFit(Streams(z, content, BlockCount(|content|))) && |content| < U64
    ensures CompressedSlice(z, Ok(DecmpfsHeader(TYPE_ZLIB_RSRC, |content|)),
                            Ok(Fork(Streams(z, content, BlockCount(|content|)))), offset, n) ==
            Ok(Slice(content, offset, n))
  {
    hide DecmpfsHeader, ParseHeader, RsrcSlice, Fork;
    var x := DecmpfsHeader(TYPE_ZLIB_RSRC, |content|);
    assert x + [] == x;
    HeaderParses(TYPE_ZLIB_RSRC, |content|, []);
    if offset < |content| {
      var want := Want(|content|, offset, n);
      ForkRoundTrip(z, content, offset, want);
      assert want == 0 ==> content[offset..offset + want] == [];
    }
  }
}
