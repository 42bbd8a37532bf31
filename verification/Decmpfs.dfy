/** Compressed files (`decmpfs.rs`), and the writer's resource forks (`build_cmpf_rsrc`). */
module Decmpfs {
  import opened Bytes
  import opened SliceReader
  import opened FileRead

  const DECMPFS_MAGIC := 0x636d_7066
  const TYPE_ZLIB_XATTR := 3
  const TYPE_ZLIB_RSRC := 4
  const TYPE_PLAIN_XATTR := 9
  const RSRC_BLOCK_SIZE := 0x1_0000
  const MAX_INFLATE := 64 * 1024 * 1024

  // ---------- zlib, abstractly ----------

  /** A compressor and a decompressor bounded by an output limit. */
  datatype Zlib = Zlib(deflate: Bytes -> Bytes, inflate: (Bytes, nat) -> Option<Bytes>) {
    /** Inflating undoes deflating within the limit, and a stream's first byte has compression method 8
        in its low nibble (section 2.2 of RFC 1950). */
    ghost predicate Lawful() {
      (forall b, limit: nat {:trigger inflate(deflate(b), limit)} :: |b| <= limit ==> inflate(deflate(b), limit) == Some(b)) &&
      (forall b {:trigger deflate(b)} :: |deflate(b)| > 0 && deflate(b)[0] % 16 == 8)
    }
  }

  function InflateZlib(z: Zlib, data: Bytes, limit: nat): Result<Bytes> {
    match z.inflate(data, Min(limit, MAX_INFLATE))
    case Some(b) => Ok(b)
    case None => Err(Corrupt)
  }

  /** A stored block if the first byte's low nibble is 15. */
  function ZlibBlock(z: Zlib, data: Bytes, limit: nat): Result<Bytes> {
    if |data| == 0 then Ok([])
    else if data[0] % 16 == 15 then Ok(data[1..])
    else InflateZlib(z, data, limit)
  }

  // ---------- the header ----------

  datatype Header = Header(compressionType: nat, uncompressedSize: nat)

  function ParseHeader(xattr: Bytes): Result<Header> {
    var magic :- ReadLE(xattr, 0, 4);
    if magic != DECMPFS_MAGIC then Err(Parse)
    else
      var ctype :- ReadLE(xattr, 4, 4);
      var size :- ReadLE(xattr, 8, 8);
      Ok(Header(ctype, size))
  }

  lemma HeaderLength(xattr: Bytes)
    requires ParseHeader(xattr).Ok?
    ensures |xattr| >= 16
  {
  }

  // ---------- copy_window ----------

  /** The bytes of `data` from `off`, zero-filled to `n`; a start past the end of `data` panics. */
  function DataWindow(data: Bytes, off: nat, n: nat): (r: Result<Bytes>)
    ensures r.Ok? ==> |r.value| == n
  {
    if off > |data| then Err(Panic)
    else if off + n <= |data| then Ok(data[off..off + n])
    else Ok(data[off..] + Zeros(n - (|data| - off)))
  }

  method CopyWindow(data: Bytes, off: nat, out: array<byte>, at: nat, n: nat) returns (r: Result<nat>)
    requires at + n <= out.Length
    modifies out
    ensures r == if off > |data| then Err(Panic) else Ok(n)
    ensures r.Ok? ==> forall j :: at <= j < at + n ==> out[j] == if off + j - at < |data| then data[off + j - at] else 0
    ensures forall j :: 0 <= j < out.Length && !(at <= j < at + n) ==> out[j] == old(out[j])
  {
    var available := if |data| < off then 0 else |data| - off;
    var take := Min(available, n);
    if off + take > |data| {
      return Err(Panic);
    }
    forall k | at <= k < at + n {
      out[k] := if k < at + take then data[off + k - at] else 0;
    }
    return Ok(n);
  }

  lemma WindowIs(data: Bytes, off: nat, w: Bytes)
    requires off <= |data|
    requires forall k :: 0 <= k < |w| ==> w[k] == if off + k < |data| then data[off + k] else 0
    ensures DataWindow(data, off, |w|) == Ok(w)
  {
    if off + |w| <= |data| {
      assert w == data[off..off + |w|];
    } else {
      assert w == data[off..] + Zeros(|w| - (|data| - off));
    }
  }

  // ---------- type 4: blocks in the resource fork ----------

  /** Where the table of blocks starts, once the block count is what `size` needs. */
  function TableBase(rsrc: Bytes, size: nat): (r: Result<nat>)
    ensures r.Ok? ==> r.value + 4 <= |rsrc|
  {
    var head :- TakeAt(rsrc, 0, 4);
    var dataOff := FromBE(head);
    var _ :- ReadLE(rsrc, dataOff, 4);
    var nblocks :- ReadLE(rsrc, dataOff + 4, 4);
    if nblocks != (size + RSRC_BLOCK_SIZE - 1) / RSRC_BLOCK_SIZE then Err(Corrupt) else Ok(dataOff + 4)
  }

  /** The length block `i` should decode to. */
  function BlockLen(size: nat, i: nat): nat {
    if i * RSRC_BLOCK_SIZE >= size then 0 else Min(size - i * RSRC_BLOCK_SIZE, RSRC_BLOCK_SIZE)
  }

  /** Block `i`, looked up in the table and decoded. */
  function BlockAt(z: Zlib, rsrc: Bytes, base: nat, size: nat, i: nat): Result<Bytes> {
    var off :- ReadLE(rsrc, base + 4 + i * 8, 4);
    var len :- ReadLE(rsrc, base + 8 + i * 8, 4);
    if base + off + len > |rsrc| then Err(Corrupt)
    else ZlibBlock(z, rsrc[base + off..base + off + len], BlockLen(size, i))
  }

  /** The first error among blocks `i..=last`. */
  function FirstError(z: Zlib, rsrc: Bytes, base: nat, size: nat, i: nat, last: int): Option<Error>
    decreases last + 1 - i
  {
    if i > last then None
    else
      var b := BlockAt(z, rsrc, base, size, i);
      if b.Err? then Some(b.error) else FirstError(z, rsrc, base, size, i + 1, last)
  }

  /** How a read of [offset, offset + n) fails, if it does: in its first block, which panics if the
      window starts past the block's decoded end, or at the first later block that does not decode. */
  function Failure(z: Zlib, rsrc: Bytes, base: nat, size: nat, offset: nat, n: nat): Option<Error> {
    if n == 0 then None
    else
      var first := BlockAt(z, rsrc, base, size, offset / RSRC_BLOCK_SIZE);
      if first.Err? then Some(first.error)
      else if offset % RSRC_BLOCK_SIZE > |first.value| then Some(Panic)
      else FirstError(z, rsrc, base, size, offset / RSRC_BLOCK_SIZE + 1, (offset + n - 1) / RSRC_BLOCK_SIZE)
  }

  /** The byte at `pos`: in its block, or 0 past the block's decoded end. */
  function ContentByte(z: Zlib, rsrc: Bytes, base: nat, size: nat, pos: nat): byte {
    ByteOf(BlockAt(z, rsrc, base, size, pos / RSRC_BLOCK_SIZE), pos % RSRC_BLOCK_SIZE)
  }

  function ByteOf(b: Result<Bytes>, k: nat): byte {
    if b.Ok? && k < |b.value| then b.value[k] else 0
  }

  function Content(z: Zlib, rsrc: Bytes, base: nat, size: nat, lo: nat, n: nat): (r: Bytes)
    ensures |r| == n
  {
    seq<byte>(n, k requires 0 <= k < n => ContentByte(z, rsrc, base, size, lo + k))
  }

  function RsrcSlice(z: Zlib, rsrc: Bytes, size: nat, offset: nat, n: nat): Result<Bytes> {
    var base :- TableBase(rsrc, size);
    var failure := Failure(z, rsrc, base, size, offset, n);
    if failure.Some? then Err(failure.value) else Ok(Content(z, rsrc, base, size, offset, n))
  }

  method OpenTable(rsrc: Bytes, size: nat) returns (r: Result<nat>)
    ensures r == TableBase(rsrc, size)
  {
    hide Field, FromBE;
    var h := new Reader(rsrc);
    var head :- h.Take(4);
    var dataOff := FromBE(head);
    if dataOff > |rsrc| {
      return Err(Parse);
    }
    var _ :- ReadLE(rsrc, dataOff, 4);
    var nblocks :- ReadLE(rsrc, dataOff + 4, 4);
    if nblocks != (size + RSRC_BLOCK_SIZE - 1) / RSRC_BLOCK_SIZE {
      return Err(Corrupt);
    }
    return Ok(dataOff + 4);
  }

  /** `read_rsrc_zlib` into `out[..n]`. Every turn of the loop makes progress. */
  method ReadRsrcZlib(z: Zlib, rsrc: Bytes, size: nat, offset: nat, out: array<byte>, n: nat) returns (r: Result<nat>)
    requires n <= out.Length && offset + n <= size
    modifies out
    ensures RsrcSlice(z, rsrc, size, offset, n) == if r.Ok? then Ok(out[..n]) else Err(r.error)
    ensures r.Ok? ==> r.value == n
    ensures out[n..] == old(out[n..])
  {
    hide TableBase, BlockAt;
    var base :- OpenTable(rsrc, size);
    var done := 0;
    while done < n
      invariant 0 <= done <= n
      invariant done == 0 || done == n || (offset + done) % RSRC_BLOCK_SIZE == 0
      invariant Failure(z, rsrc, base, size, offset, n) == Remaining(z, rsrc, base, size, offset, done, n)
      invariant forall k :: 0 <= k < done ==> out[k] == ContentByte(z, rsrc, base, size, offset + k)
      invariant out[n..] == old(out[n..])
      decreases n - done
    {
      var pos := offset + done;
      var idx := pos / RSRC_BLOCK_SIZE;
      var within := pos % RSRC_BLOCK_SIZE;
      var block :- BlockAt(z, rsrc, base, size, idx);
      var blockLen := Min(size - idx * RSRC_BLOCK_SIZE, RSRC_BLOCK_SIZE);
      var take := Min(blockLen - within, n - done);
      assert take > 0;
      if take == 0 {
        break;
      }
      BlockBytes(z, rsrc, base, size, offset, done, take);
      NextBlock(z, rsrc, base, size, offset, done, take, n);
      var copied :- CopyWindow(block, within, out, done, take);
      done := done + take;
    }
    assert out[..n] == Content(z, rsrc, base, size, offset, n);
    return Ok(n);
  }

  /** The failure still ahead when `done` bytes are copied. */
  function Remaining(z: Zlib, rsrc: Bytes, base: nat, size: nat, offset: nat, done: nat, n: nat): Option<Error> {
    if done == 0 then Failure(z, rsrc, base, size, offset, n)
    else if done >= n then None
    else FirstError(z, rsrc, base, size, (offset + done) / RSRC_BLOCK_SIZE, (offset + n - 1) / RSRC_BLOCK_SIZE)
  }

  /** Bytes `done..done + take` of a read all lie in the block at `done`. */
  lemma BlockBytes(z: Zlib, rsrc: Bytes, base: nat, size: nat, offset: nat, done: nat, take: nat)
    requires (offset + done) % RSRC_BLOCK_SIZE + take <= RSRC_BLOCK_SIZE
    ensures var b := BlockAt(z, rsrc, base, size, (offset + done) / RSRC_BLOCK_SIZE);
            forall pos :: offset + done <= pos < offset + done + take ==>
              ContentByte(z, rsrc, base, size, pos) == ByteOf(b, (offset + done) % RSRC_BLOCK_SIZE + pos - offset - done)
  {
    hide BlockAt;
    var start := offset + done;
    forall pos | start <= pos < start + take
      ensures ContentByte(z, rsrc, base, size, pos) ==
              ByteOf(BlockAt(z, rsrc, base, size, start / RSRC_BLOCK_SIZE), start % RSRC_BLOCK_SIZE + pos - start)
    {
      assert pos / RSRC_BLOCK_SIZE == start / RSRC_BLOCK_SIZE;
      assert pos % RSRC_BLOCK_SIZE == start % RSRC_BLOCK_SIZE + pos - start;
    }
  }

  lemma NextBlock(z: Zlib, rsrc: Bytes, base: nat, size: nat, offset: nat, done: nat, take: nat, n: nat)
    requires done < n && offset + n <= size && (done == 0 || (offset + done) % RSRC_BLOCK_SIZE == 0)
    requires take == Min(BlockLen(size, (offset + done) / RSRC_BLOCK_SIZE) - (offset + done) % RSRC_BLOCK_SIZE, n - done)
    ensures var b := BlockAt(z, rsrc, base, size, (offset + done) / RSRC_BLOCK_SIZE);
            Remaining(z, rsrc, base, size, offset, done, n) ==
            if b.Err? then Some(b.error)
            else if (offset + done) % RSRC_BLOCK_SIZE > |b.value| then Some(Panic)
            else Remaining(z, rsrc, base, size, offset, done + take, n)
    ensures done + take == n || (offset + done + take) % RSRC_BLOCK_SIZE == 0
  {
    hide BlockAt;
    var idx, last := (offset + done) / RSRC_BLOCK_SIZE, (offset + n - 1) / RSRC_BLOCK_SIZE;
    if done + take < n {
      assert (offset + done + take) / RSRC_BLOCK_SIZE == idx + 1;
    } else {
      assert last == idx;
      assert FirstError(z, rsrc, base, size, idx + 1, last) == None;
    }
  }

  // ---------- random access is whole-file decoding ----------

  /** Every block of a file of `size` bytes decodes to the length it should have. */
  ghost predicate WellFormed(z: Zlib, rsrc: Bytes, base: nat, size: nat) {
    forall i: nat :: i * RSRC_BLOCK_SIZE < size ==> Decodes(z, rsrc, base, size, i)
  }

  ghost predicate Decodes(z: Zlib, rsrc: Bytes, base: nat, size: nat, i: nat) {
    var b := BlockAt(z, rsrc, base, size, i);
    b.Ok? && |b.value| == BlockLen(size, i)
  }

  /** The first `n` blocks decoded, one after another. */
  function Decoded(z: Zlib, rsrc: Bytes, base: nat, size: nat, n: nat): Bytes {
    if n == 0 then []
    else
      var b := BlockAt(z, rsrc, base, size, n - 1);
      Decoded(z, rsrc, base, size, n - 1) + if b.Ok? then b.value else []
  }

  lemma {:induction false} DecodedIs(z: Zlib, rsrc: Bytes, base: nat, size: nat, n: nat)
    requires WellFormed(z, rsrc, base, size) && (n > 0 ==> (n - 1) * RSRC_BLOCK_SIZE < size)
    ensures Decoded(z, rsrc, base, size, n) == Content(z, rsrc, base, size, 0, Min(n * RSRC_BLOCK_SIZE, size))
    decreases n
  {
    hide BlockAt, Content, ContentByte;
    if n > 0 {
      DecodedIs(z, rsrc, base, size, n - 1);
      assert Decodes(z, rsrc, base, size, n - 1);
      BlockIsContent(z, rsrc, base, size, n - 1);
      AppendBlock(z, rsrc, base, size, (n - 1) * RSRC_BLOCK_SIZE, BlockAt(z, rsrc, base, size, n - 1).value);
    } else {
      NoContent(z, rsrc, base, size);
    }
  }

  lemma NoContent(z: Zlib, rsrc: Bytes, base: nat, size: nat)
    ensures Content(z, rsrc, base, size, 0, 0) == []
  {
  }

  lemma BlockIsContent(z: Zlib, rsrc: Bytes, base: nat, size: nat, i: nat)
    requires i * RSRC_BLOCK_SIZE < size && Decodes(z, rsrc, base, size, i)
    ensures var b, done := BlockAt(z, rsrc, base, size, i).value, i * RSRC_BLOCK_SIZE;
            forall pos :: done <= pos < done + |b| ==> ContentByte(z, rsrc, base, size, pos) == b[pos - done]
  {
    hide BlockAt, ContentByte;
    BlockBytes(z, rsrc, base, size, 0, i * RSRC_BLOCK_SIZE, BlockLen(size, i));
  }

  lemma AppendBlock(z: Zlib, rsrc: Bytes, base: nat, size: nat, done: nat, b: Bytes)
    requires forall pos :: done <= pos < done + |b| ==> ContentByte(z, rsrc, base, size, pos) == b[pos - done]
    ensures Content(z, rsrc, base, size, 0, done + |b|) == Content(z, rsrc, base, size, 0, done) + b
  {
    hide ContentByte;
  }

  lemma {:induction false} NoError(z: Zlib, rsrc: Bytes, base: nat, size: nat, i: nat, last: int)
    ensures FirstError(z, rsrc, base, size, i, last) == None <==>
            forall j :: i <= j <= last ==> BlockAt(z, rsrc, base, size, j).Ok?
    decreases last + 1 - i
  {
    if i <= last {
      NoError(z, rsrc, base, size, i + 1, last);
    }
  }

  /** A read at any offset is that slice of the decoded blocks put together. */
  lemma RandomAccess(z: Zlib, rsrc: Bytes, base: nat, size: nat, offset: nat, n: nat)
    requires TableBase(rsrc, size) == Ok(base) && WellFormed(z, rsrc, base, size) && offset + n <= size
    ensures var whole := Decoded(z, rsrc, base, size, (size + RSRC_BLOCK_SIZE - 1) / RSRC_BLOCK_SIZE);
            |whole| == size && RsrcSlice(z, rsrc, size, offset, n) == Ok(whole[offset..offset + n])
  {
    hide TableBase, BlockAt;
    DecodedIs(z, rsrc, base, size, (size + RSRC_BLOCK_SIZE - 1) / RSRC_BLOCK_SIZE);
    var whole := Content(z, rsrc, base, size, 0, size);
    assert Content(z, rsrc, base, size, offset, n) == whole[offset..offset + n];
    if n > 0 {
      assert Decodes(z, rsrc, base, size, offset / RSRC_BLOCK_SIZE);
      AllDecode(z, rsrc, base, size, offset / RSRC_BLOCK_SIZE + 1, (offset + n - 1) / RSRC_BLOCK_SIZE);
    }
  }

  lemma AllDecode(z: Zlib, rsrc: Bytes, base: nat, size: nat, i: nat, last: nat)
    requires WellFormed(z, rsrc, base, size) && last * RSRC_BLOCK_SIZE < size
    ensures FirstError(z, rsrc, base, size, i, last) == None
  {
    hide BlockAt;
    forall j | i <= j <= last
      ensures BlockAt(z, rsrc, base, size, j).Ok?
    {
      assert Decodes(z, rsrc, base, size, j);
    }
    NoError(z, rsrc, base, size, i, last);
  }

  /** Adjacent reads that succeed concatenate to the single read, whatever the blocks hold. */
  lemma AdjacentReads(z: Zlib, rsrc: Bytes, size: nat, offset: nat, n: nat, m: nat)
    requires RsrcSlice(z, rsrc, size, offset, n).Ok? && RsrcSlice(z, rsrc, size, offset + n, m).Ok?
    ensures RsrcSlice(z, rsrc, size, offset, n + m) ==
            Ok(RsrcSlice(z, rsrc, size, offset, n).value + RsrcSlice(z, rsrc, size, offset + n, m).value)
  {
    hide TableBase, BlockAt;
    var base := TableBase(rsrc, size).value;
    assert Content(z, rsrc, base, size, offset, n + m) ==
           Content(z, rsrc, base, size, offset, n) + Content(z, rsrc, base, size, offset + n, m);
    if n == 0 {
      assert offset + n == offset;
    } else if m > 0 {
      var first, mid, last := offset / RSRC_BLOCK_SIZE, (offset + n - 1) / RSRC_BLOCK_SIZE, (offset + n + m - 1) / RSRC_BLOCK_SIZE;
      var next := (offset + n) / RSRC_BLOCK_SIZE;
      NoError(z, rsrc, base, size, first + 1, mid);
      NoError(z, rsrc, base, size, next + 1, last);
      forall j | first + 1 <= j <= last
        ensures BlockAt(z, rsrc, base, size, j).Ok?
      {
        assert j <= mid || j == next || next + 1 <= j;
      }
      NoError(z, rsrc, base, size, first + 1, last);
    }
  }

  /** The reader is not panic-free on damaged forks: no read panics exactly when every block that decodes
      falls at most one byte short of its expected length. */
  lemma PanicFreeFork(z: Zlib, rsrc: Bytes, size: nat)
    requires TableBase(rsrc, size).Ok?
    ensures var base := TableBase(rsrc, size).value;
            (forall offset: nat, n: nat :: offset + n <= size ==> RsrcSlice(z, rsrc, size, offset, n) != Err(Panic)) <==>
            (forall i: nat :: i * RSRC_BLOCK_SIZE < size ==> !FallsShort(z, rsrc, base, size, i))
  {
    hide TableBase, BlockAt;
    var base := TableBase(rsrc, size).value;
    if i: nat :| i * RSRC_BLOCK_SIZE < size && FallsShort(z, rsrc, base, size, i) {
      var within := BlockLen(size, i) - 1;
      var offset := i * RSRC_BLOCK_SIZE + within;
      assert offset / RSRC_BLOCK_SIZE == i && offset % RSRC_BLOCK_SIZE == within;
      assert RsrcSlice(z, rsrc, size, offset, 1) == Err(Panic);
    } else {
      forall offset: nat, n: nat | offset + n <= size
        ensures RsrcSlice(z, rsrc, size, offset, n) != Err(Panic)
      {
        NoPanicAt(z, rsrc, base, size, offset, n);
      }
    }
  }

  /** A block that decodes to two or more bytes too few. */
  ghost predicate FallsShort(z: Zlib, rsrc: Bytes, base: nat, size: nat, i: nat) {
    var b := BlockAt(z, rsrc, base, size, i);
    b.Ok? && |b.value| + 1 < BlockLen(size, i)
  }

  lemma NoPanicAt(z: Zlib, rsrc: Bytes, base: nat, size: nat, offset: nat, n: nat)
    requires forall i: nat :: i * RSRC_BLOCK_SIZE < size ==> !FallsShort(z, rsrc, base, size, i)
    requires offset + n <= size
    ensures Failure(z, rsrc, base, size, offset, n) != Some(Panic)
  {
    if n > 0 {
      var idx := offset / RSRC_BLOCK_SIZE;
      assert !FallsShort(z, rsrc, base, size, idx);
      assert offset % RSRC_BLOCK_SIZE < BlockLen(size, idx);
      BlockErrors(z, rsrc, base, size, idx);
      ErrorsNotPanic(z, rsrc, base, size, idx + 1, (offset + n - 1) / RSRC_BLOCK_SIZE);
    }
  }

  lemma BlockErrors(z: Zlib, rsrc: Bytes, base: nat, size: nat, i: nat)
    ensures BlockAt(z, rsrc, base, size, i) != Err(Panic)
  {
    hide Field;
  }

  lemma {:induction false} ErrorsNotPanic(z: Zlib, rsrc: Bytes, base: nat, size: nat, i: nat, last: int)
    ensures FirstError(z, rsrc, base, size, i, last) != Some(Panic)
    decreases last + 1 - i
  {
    hide BlockAt;
    if i <= last {
      BlockErrors(z, rsrc, base, size, i);
      ErrorsNotPanic(z, rsrc, base, size, i + 1, last);
    }
  }

  // ---------- read_at ----------

  /** The decoded content of an attribute-resident file. */
  function InlineData(z: Zlib, xattr: Bytes, h: Header): Result<Bytes>
    requires |xattr| >= 16
  {
    if h.compressionType == TYPE_PLAIN_XATTR then Ok(if |xattr| > 16 then xattr[17..] else [])
    else ZlibBlock(z, xattr[16..], h.uncompressedSize)
  }

  /** What a read of a compressed file returns, given its two attributes. */
  function CompressedSlice(z: Zlib, xattr: Result<Bytes>, rsrc: Result<Bytes>, offset: nat, n: nat): Result<Bytes> {
    var x :- xattr;
    var h :- ParseHeader(x);
    var want := Want(h.uncompressedSize, offset, n);
    if offset >= h.uncompressedSize then Ok([])
    else if h.compressionType == TYPE_PLAIN_XATTR || h.compressionType == TYPE_ZLIB_XATTR then
      var data :- InlineData(z, x, h);
      DataWindow(data, offset, want)
    else if h.compressionType == TYPE_ZLIB_RSRC then
      var fork :- rsrc;
      RsrcSlice(z, fork, h.uncompressedSize, offset, want)
    else Err(Unsupported)
  }

  /** The read gets as far as the resource fork. */
  function NeedsFork(xattr: Result<Bytes>, offset: nat): bool {
    xattr.Ok? && ParseHeader(xattr.value).Ok? &&
    var h := ParseHeader(xattr.value).value;
    offset < h.uncompressedSize && h.compressionType == TYPE_ZLIB_RSRC
  }

  lemma ForkUnused(z: Zlib, xattr: Result<Bytes>, a: Result<Bytes>, b: Result<Bytes>, offset: nat, n: nat)
    requires !NeedsFork(xattr, offset)
    ensures CompressedSlice(z, xattr, a, offset, n) == CompressedSlice(z, xattr, b, offset, n)
  {
  }

  method ReadAt(z: Zlib, xattr: Result<Bytes>, rsrc: Result<Bytes>, offset: nat, buf: array<byte>) returns (r: Result<nat>)
    modifies buf
    ensures r.Ok? ==> r.value <= buf.Length
    ensures CompressedSlice(z, xattr, rsrc, offset, buf.Length) == if r.Ok? then Ok(buf[..r.value]) else Err(r.error)
    ensures r.Ok? ==> buf[r.value..] == old(buf[r.value..])
  {
    hide RsrcSlice, ParseHeader, ZlibBlock;
    var x :- xattr;
    var h :- ParseHeader(x);
    HeaderLength(x);
    var size := h.uncompressedSize;
    if offset >= size {
      return Ok(0);
    }
    var want := Min(buf.Length, size - offset);
    if h.compressionType == TYPE_PLAIN_XATTR {
      var payload := x[16..];
      var data := if |payload| > 0 then payload[1..] else [];
      r := CopyWindow(data, offset, buf, 0, want);
      if r.Ok? {
        WindowIs(data, offset, buf[..want]);
      }
    } else if h.compressionType == TYPE_ZLIB_XATTR {
      var data :- ZlibBlock(z, x[16..], size);
      r := CopyWindow(data, offset, buf, 0, want);
      if r.Ok? {
        WindowIs(data, offset, buf[..want]);
      }
    } else if h.compressionType == TYPE_ZLIB_RSRC {
      var fork :- rsrc;
      r := ReadRsrcZlib(z, fork, size, offset, buf, want);
    } else {
      return Err(Unsupported);
    }
  }

  /** Attribute-resident files are not panic-free either: no read panics exactly when the decoded data
      is at most one byte shorter than the header claims. */
  lemma PanicFreeInline(z: Zlib, xattr: Bytes, rsrc: Result<Bytes>)
    requires ParseHeader(xattr).Ok? && ParseHeader(xattr).value.compressionType in {TYPE_PLAIN_XATTR, TYPE_ZLIB_XATTR}
    requires |xattr| >= 16 && InlineData(z, xattr, ParseHeader(xattr).value).Ok?
    ensures var h := ParseHeader(xattr).value;
            (forall offset: nat, n: nat :: CompressedSlice(z, Ok(xattr), rsrc, offset, n) != Err(Panic)) <==>
            h.uncompressedSize <= |InlineData(z, xattr, h).value| + 1
  {
    hide ParseHeader, InlineData, RsrcSlice;
    var h := ParseHeader(xattr).value;
    var data := InlineData(z, xattr, h).value;
    if h.uncompressedSize > |data| + 1 {
      assert CompressedSlice(z, Ok(xattr), rsrc, |data| + 1, 1) == Err(Panic);
    }
  }
}
