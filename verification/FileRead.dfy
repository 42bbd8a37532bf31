/** File contents stitched from extents (`read_file_at` and `read_file` in `fs.rs`). */
module FileRead {
  import opened Bytes
  import opened Records

  // ---------- the abstract sparse file ----------

  /** `e` stores the file's byte at `pos`: it spans it and is not a hole. */
  predicate Stores(e: FileExtent, pos: nat) {
    e.logicalAddr <= pos < e.logicalAddr + e.lenBytes && e.physBlock != 0
  }

  function DeviceOffset(bs: nat, e: FileExtent, pos: nat): nat
    requires e.logicalAddr <= pos
  {
    e.physBlock * bs + (pos - e.logicalAddr)
  }

  /** The byte of the last extent that stores `pos`, and 0 where none does. */
  function SparseByte(dev: Bytes, bs: nat, exts: seq<FileExtent>, pos: nat): byte {
    if |exts| == 0 then 0
    else
      var e := exts[|exts| - 1];
      if Stores(e, pos) then (if DeviceOffset(bs, e, pos) < |dev| then dev[DeviceOffset(bs, e, pos)] else 0)
      else SparseByte(dev, bs, exts[..|exts| - 1], pos)
  }

  /** Every extent that stores a byte of [lo, hi) stores it inside the device. */
  ghost predicate Backed(dev: Bytes, bs: nat, exts: seq<FileExtent>, lo: nat, hi: nat) {
    forall e, pos :: e in exts && lo <= pos < hi && Stores(e, pos) ==> DeviceOffset(bs, e, pos) < |dev|
  }

  /** No sum the source computes in reading [lo, lo + n) wraps around 64 bits: not the end of any extent,
      nor the device address of the part it needs of one. */
  ghost predicate NoWrap(bs: nat, exts: seq<FileExtent>, lo: nat, n: nat) {
    forall e :: e in exts ==>
      && e.logicalAddr + e.lenBytes < U64
      && (Max(lo, e.logicalAddr) < Min(lo + n, e.logicalAddr + e.lenBytes) && e.physBlock != 0 ==>
            DeviceOffset(bs, e, Max(lo, e.logicalAddr)) < U64)
  }

  function Window(dev: Bytes, bs: nat, exts: seq<FileExtent>, lo: nat, n: nat): (r: Bytes)
    ensures |r| == n
  {
    seq<byte>(n, i requires 0 <= i < n => SparseByte(dev, bs, exts, lo + i))
  }

  /** How many bytes a read of `n` at `offset` yields. */
  function Want(size: nat, offset: nat, n: nat): nat {
    if offset >= size then 0 else Min(n, size - offset)
  }

  /** What a read of a plain file returns. */
  ghost function FileSlice(dev: Bytes, bs: nat, exts: seq<FileExtent>, size: nat, offset: nat, n: nat): Result<Bytes> {
    var want := Want(size, offset, n);
    if Backed(dev, bs, exts, offset, offset + want) then Ok(Window(dev, bs, exts, offset, want)) else Err(Io)
  }

  // ---------- read_file_at on a plain file ----------

  /** The part of `read_file_at` after its directory and compression tests. */
  method ReadExtents(dev: Bytes, bs: nat, exts: seq<FileExtent>, size: nat, offset: nat, buf: array<byte>)
    returns (r: Result<nat>)
    requires offset < size ==> NoWrap(bs, exts, offset, Want(size, offset, buf.Length))
    modifies buf
    ensures r.Ok? <==> Backed(dev, bs, exts, offset, offset + Want(size, offset, buf.Length))
    ensures r.Err? ==> r.error == Io
    ensures r.Ok? ==> r.value == Want(size, offset, buf.Length) &&
                      buf[..r.value] == Window(dev, bs, exts, offset, r.value)
    ensures buf[Want(size, offset, buf.Length)..] == old(buf[Want(size, offset, buf.Length)..])
  {
    if offset >= size {
      return Ok(0);
    }
    var want := Min(buf.Length, size - offset);
    Fill(buf, want);
    for i := 0 to |exts|
      invariant Backed(dev, bs, exts[..i], offset, offset + want)
      invariant Holds(buf[..], dev, bs, exts[..i], offset, want)
      invariant buf[want..] == old(buf[want..])
    {
      assert exts[..i + 1] == exts[..i] + [exts[i]];
      var ok := ReadExtent(dev, bs, exts[i], offset, want, buf);
      if !ok {
        assert exts[i] in exts;
        return Err(Io);
      }
    }
    assert exts[..|exts|] == exts;
    return Ok(want);
  }

  /** One turn of the loop: copy what `e` stores of [offset, offset + want), if the device holds it. */
  method ReadExtent(dev: Bytes, bs: nat, e: FileExtent, offset: nat, want: nat, buf: array<byte>) returns (ok: bool)
    requires want <= buf.Length
    modifies buf
    ensures ok <==> forall pos :: offset <= pos < offset + want && Stores(e, pos) ==> DeviceOffset(bs, e, pos) < |dev|
    ensures ok ==> forall k :: 0 <= k < want ==>
              buf[k] == if Stores(e, offset + k) then dev[DeviceOffset(bs, e, offset + k)] else old(buf[k])
    ensures buf[want..] == old(buf[want..])
  {
    var readStart := Max(offset, e.logicalAddr);
    var readEnd := Min(offset + want, e.logicalAddr + e.lenBytes);
    if readStart >= readEnd || e.physBlock == 0 {
      assert forall pos :: offset <= pos < offset + want ==> !Stores(e, pos);
      return true;
    }
    var devOff := e.physBlock * bs + (readStart - e.logicalAddr);
    var n := readEnd - readStart;
    assert forall pos :: offset <= pos < offset + want && Stores(e, pos) <==> readStart <= pos < readEnd;
    if devOff + n > |dev| {
      assert Stores(e, readEnd - 1) && DeviceOffset(bs, e, readEnd - 1) >= |dev|;
      return false;
    }
    CopyRange(dev, devOff, buf, readStart - offset, n);
    return true;
  }

  ghost predicate Holds(b: Bytes, dev: Bytes, bs: nat, exts: seq<FileExtent>, offset: nat, want: nat) {
    want <= |b| && forall k :: 0 <= k < want ==> b[k] == SparseByte(dev, bs, exts, offset + k)
  }

  method Fill(buf: array<byte>, n: nat)
    requires n <= buf.Length
    modifies buf
    ensures forall k :: 0 <= k < n ==> buf[k] == 0
    ensures buf[n..] == old(buf[n..])
  {
    forall k | 0 <= k < n {
      buf[k] := 0;
    }
  }

  method CopyRange(src: Bytes, from: nat, buf: array<byte>, at: nat, n: nat)
    requires from + n <= |src| && at + n <= buf.Length
    modifies buf
    ensures forall k :: 0 <= k < buf.Length ==> buf[k] == if at <= k < at + n then src[from + k - at] else old(buf[k])
  {
    forall k | at <= k < at + n {
      buf[k] := src[from + k - at];
    }
  }

  /** The largest buffer that can be asked for: `vec![0u8; n]` panics beyond `isize::MAX`. */
  const MAX_ALLOC := 0x7FFF_FFFF_FFFF_FFFF

  /** The content of a whole plain file, read into a buffer of its size. */
  ghost function WholeSlice(dev: Bytes, bs: nat, exts: seq<FileExtent>, size: nat): Result<Bytes> {
    if size > MAX_ALLOC then Err(Panic) else FileSlice(dev, bs, exts, size, 0, size)
  }

  method ReadWhole(dev: Bytes, bs: nat, exts: seq<FileExtent>, size: nat) returns (r: Result<Bytes>)
    requires size <= MAX_ALLOC && NoWrap(bs, exts, 0, size)
    ensures r == WholeSlice(dev, bs, exts, size)
  {
    var buf := new byte[size];
    var n := ReadExtents(dev, bs, exts, size, 0, buf);
    if n.Err? {
      return Err(n.error);
    }
    return Ok(buf[..n.value]);
  }

  // ---------- what the sparse file is ----------

  /** The last extent that stores `pos` decides its byte. */
  lemma {:induction false} LastStoringWins(dev: Bytes, bs: nat, exts: seq<FileExtent>, pos: nat, i: nat)
    requires i < |exts| && Stores(exts[i], pos) && forall j :: i < j < |exts| ==> !Stores(exts[j], pos)
    requires Backed(dev, bs, exts, pos, pos + 1)
    ensures DeviceOffset(bs, exts[i], pos) < |dev|
    ensures SparseByte(dev, bs, exts, pos) == dev[DeviceOffset(bs, exts[i], pos)]
  {
    var n := |exts| - 1;
    assert exts[i] in exts;
    if i < n {
      LastStoringWins(dev, bs, exts[..n], pos, i);
    }
  }

  lemma {:induction false} HolesReadZero(dev: Bytes, bs: nat, exts: seq<FileExtent>, pos: nat)
    requires forall e :: e in exts ==> !Stores(e, pos)
    ensures SparseByte(dev, bs, exts, pos) == 0
  {
    if |exts| > 0 {
      HolesReadZero(dev, bs, exts[..|exts| - 1], pos);
    }
  }

  /** No position is stored by two different extents. */
  ghost predicate Disjoint(exts: seq<FileExtent>) {
    forall e, f, pos :: e in exts && f in exts && Stores(e, pos) && Stores(f, pos) ==> e == f
  }

  lemma {:induction false} StoredByte(dev: Bytes, bs: nat, exts: seq<FileExtent>, e: FileExtent, pos: nat)
    requires e in exts && Stores(e, pos) && forall f :: f in exts && Stores(f, pos) ==> f == e
    ensures SparseByte(dev, bs, exts, pos) == if DeviceOffset(bs, e, pos) < |dev| then dev[DeviceOffset(bs, e, pos)] else 0
  {
    var n := |exts| - 1;
    assert exts == exts[..n] + [exts[n]];
    if !Stores(exts[n], pos) {
      StoredByte(dev, bs, exts[..n], e, pos);
    }
  }

  /** Disjoint extents mean the same file in any order. */
  lemma OrderIsIrrelevant(dev: Bytes, bs: nat, exts: seq<FileExtent>, others: seq<FileExtent>, size: nat, offset: nat, n: nat)
    requires Disjoint(exts) && forall e :: e in exts <==> e in others
    ensures FileSlice(dev, bs, exts, size, offset, n) == FileSlice(dev, bs, others, size, offset, n)
  {
    var want := Want(size, offset, n);
    assert Backed(dev, bs, exts, offset, offset + want) <==> Backed(dev, bs, others, offset, offset + want);
    forall pos | offset <= pos < offset + want
      ensures SparseByte(dev, bs, exts, pos) == SparseByte(dev, bs, others, pos)
    {
      SameByte(dev, bs, exts, others, pos);
    }
    assert Window(dev, bs, exts, offset, want) == Window(dev, bs, others, offset, want);
  }

  lemma SameByte(dev: Bytes, bs: nat, exts: seq<FileExtent>, others: seq<FileExtent>, pos: nat)
    requires Disjoint(exts) && forall e :: e in exts <==> e in others
    ensures SparseByte(dev, bs, exts, pos) == SparseByte(dev, bs, others, pos)
  {
    if e :| e in exts && Stores(e, pos) {
      StoredByte(dev, bs, exts, e, pos);
      StoredByte(dev, bs, others, e, pos);
    } else {
      HolesReadZero(dev, bs, exts, pos);
      HolesReadZero(dev, bs, others, pos);
    }
  }

  // ---------- consecutive reads ----------

  /** Reading `chunks` one after another from `offset`, stopping at the first error. */
  ghost function ReadChunks(dev: Bytes, bs: nat, exts: seq<FileExtent>, size: nat, offset: nat, chunks: seq<nat>): Result<Bytes>
    decreases chunks
  {
    if |chunks| == 0 then Ok([])
    else
      var first :- FileSlice(dev, bs, exts, size, offset, chunks[0]);
      var rest :- ReadChunks(dev, bs, exts, size, offset + chunks[0], chunks[1..]);
      Ok(first + rest)
  }

  function Total(chunks: seq<nat>): nat {
    if |chunks| == 0 then 0 else chunks[0] + Total(chunks[1..])
  }

  /** Any way of cutting a range into consecutive reads yields the single read's bytes, and fails when
      it does. */
  lemma {:induction false} SplitReads(dev: Bytes, bs: nat, exts: seq<FileExtent>, size: nat, offset: nat, chunks: seq<nat>)
    ensures ReadChunks(dev, bs, exts, size, offset, chunks) == FileSlice(dev, bs, exts, size, offset, Total(chunks))
    decreases chunks
  {
    if |chunks| == 0 {
      assert Window(dev, bs, exts, offset, 0) == [];
    } else {
      SplitReads(dev, bs, exts, size, offset + chunks[0], chunks[1..]);
      TwoReads(dev, bs, exts, size, offset, chunks[0], Total(chunks[1..]));
    }
  }

  lemma TwoReads(dev: Bytes, bs: nat, exts: seq<FileExtent>, size: nat, offset: nat, n: nat, m: nat)
    ensures var a, b := FileSlice(dev, bs, exts, size, offset, n), FileSlice(dev, bs, exts, size, offset + n, m);
            FileSlice(dev, bs, exts, size, offset, n + m) ==
            if a.Ok? && b.Ok? then Ok(a.value + b.value) else Err(Io)
  {
    var first, second := Want(size, offset, n), Want(size, offset + n, m);
    assert Want(size, offset, n + m) == first + second;
    assert second > 0 ==> first == n;
    BackedParts(dev, bs, exts, offset, first, second);
    assert second == 0 || offset + n == offset + first;
    WindowParts(dev, bs, exts, offset, first, second);
  }

  lemma BackedParts(dev: Bytes, bs: nat, exts: seq<FileExtent>, lo: nat, n: nat, m: nat)
    ensures Backed(dev, bs, exts, lo, lo + (n + m)) <==>
            Backed(dev, bs, exts, lo, lo + n) && Backed(dev, bs, exts, lo + n, lo + n + m)
  {
  }

  lemma WindowParts(dev: Bytes, bs: nat, exts: seq<FileExtent>, lo: nat, n: nat, m: nat)
    ensures Window(dev, bs, exts, lo, n + m) == Window(dev, bs, exts, lo, n) + Window(dev, bs, exts, lo + n, m)
  {
  }

  /** The slice of `content` a read of `n` bytes at `offset` should return. */
  function Slice(content: Bytes, offset: nat, n: nat): Bytes {
    if offset >= |content| then [] else content[offset..Min(offset + n, |content|)]
  }

  /** Every read is a slice of the whole file. */
  lemma ReadIsSlice(dev: Bytes, bs: nat, exts: seq<FileExtent>, size: nat, offset: nat, n: nat)
    requires FileSlice(dev, bs, exts, size, 0, size).Ok?
    ensures var whole := FileSlice(dev, bs, exts, size, 0, size).value;
            |whole| == size && FileSlice(dev, bs, exts, size, offset, n) == Ok(Slice(whole, offset, n))
  {
    var whole, want := FileSlice(dev, bs, exts, size, 0, size).value, Want(size, offset, n);
    assert Window(dev, bs, exts, offset, want) == Slice(whole, offset, n);
  }
}
