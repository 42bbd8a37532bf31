/** A file in several runs: extents one behind the other, each run anywhere on the device or a hole. */
module Stitching {
  import opened Bytes
  import opened BTreeTheory
  import opened Decmpfs
  import opened EndToEnd
  import opened FileRead
  import opened Inodes
  import opened NodeWriter
  import opened ReadBack
  import opened Records
  import opened RsrcWriter
  import opened Volume

  /** Run `i` starts where the runs before it end and is as long as its part; its bytes lie from its block
      on, or its block is zero and the part is zeros. */
  ghost predicate Laid(dev: Bytes, bs: nat, exts: seq<FileExtent>, parts: seq<Bytes>) {
    |exts| == |parts| && forall i :: 0 <= i < |exts| ==>
      && exts[i].logicalAddr == |Joined(parts[..i])| && exts[i].lenBytes == |parts[i]|
      && var at := exts[i].physBlock * bs;
      if exts[i].physBlock == 0 then parts[i] == Zeros(|parts[i]|)
      else at + |parts[i]| <= |dev| && dev[at..at + |parts[i]|] == parts[i]
  }

  lemma LaidInit(dev: Bytes, bs: nat, exts: seq<FileExtent>, parts: seq<Bytes>)
    requires Laid(dev, bs, exts, parts) && |exts| > 0
    ensures Laid(dev, bs, exts[..|exts| - 1], parts[..|exts| - 1])
  {
    hide Joined;
    var n := |exts| - 1;
    forall i | 0 <= i < n
      ensures parts[..n][..i] == parts[..i] && parts[..n][i] == parts[i]
    {
    }
  }

  lemma {:induction false} EndsBefore(dev: Bytes, bs: nat, exts: seq<FileExtent>, parts: seq<Bytes>, e: FileExtent)
    requires Laid(dev, bs, exts, parts) && e in exts
    ensures e.logicalAddr + e.lenBytes <= |Joined(parts)|
  {
    var n := |exts| - 1;
    if e != exts[n] {
      assert exts == exts[..n] + [exts[n]];
      LaidInit(dev, bs, exts, parts);
      EndsBefore(dev, bs, exts[..n], parts[..n], e);
    }
  }

  /** Every byte is its part's. */
  lemma {:induction false} StitchedByte(dev: Bytes, bs: nat, exts: seq<FileExtent>, parts: seq<Bytes>, pos: nat)
    requires Laid(dev, bs, exts, parts) && pos < |Joined(parts)|
    ensures SparseByte(dev, bs, exts, pos) == Joined(parts)[pos]
  {
    var n := |exts| - 1;
    var e := exts[n];
    LaidInit(dev, bs, exts, parts);
    if pos < |Joined(parts[..n])| {
      StitchedByte(dev, bs, exts[..n], parts[..n], pos);
    } else {
      var k := pos - e.logicalAddr;
      assert Joined(parts)[pos] == parts[n][k];
      if e.physBlock == 0 {
        forall f | f in exts
          ensures !Stores(f, pos)
        {
          if f in exts[..n] {
            EndsBefore(dev, bs, exts[..n], parts[..n], f);
          }
        }
        HolesReadZero(dev, bs, exts, pos);
      } else {
        assert dev[e.physBlock * bs..e.physBlock * bs + |parts[n]|][k] == dev[e.physBlock * bs + k];
      }
    }
  }

  lemma {:induction false} AllBacked(dev: Bytes, bs: nat, exts: seq<FileExtent>, parts: seq<Bytes>, lo: nat, hi: nat)
    requires Laid(dev, bs, exts, parts)
    ensures Backed(dev, bs, exts, lo, hi)
  {
    forall e, pos | e in exts && lo <= pos < hi && Stores(e, pos)
      ensures DeviceOffset(bs, e, pos) < |dev|
    {
      var i :| 0 <= i < |exts| && exts[i] == e;
      assert e.physBlock * bs + |parts[i]| <= |dev|;
    }
  }

  /** A file laid out in runs reads as its parts in turn, in any window. */
  lemma StitchedReads(dev: Bytes, bs: nat, exts: seq<FileExtent>, parts: seq<Bytes>, offset: nat, n: nat)
    requires Laid(dev, bs, exts, parts)
    ensures FileSlice(dev, bs, exts, |Joined(parts)|, offset, n) == Ok(Slice(Joined(parts), offset, n))
  {
    hide Laid, Joined, SparseByte, Backed;
    var whole := Joined(parts);
    var want := Want(|whole|, offset, n);
    AllBacked(dev, bs, exts, parts, offset, offset + want);
    forall pos | offset <= pos < offset + want
      ensures SparseByte(dev, bs, exts, pos) == whole[pos]
    {
      StitchedByte(dev, bs, exts, parts, pos);
    }
    assert Window(dev, bs, exts, offset, want) == Slice(whole, offset, n);
  }

  lemma LaidDisjoint(dev: Bytes, bs: nat, exts: seq<FileExtent>, parts: seq<Bytes>)
    requires Laid(dev, bs, exts, parts)
    ensures Disjoint(exts)
  {
    hide Joined;
    forall e, f, pos | e in exts && f in exts && Stores(e, pos) && Stores(f, pos)
      ensures e == f
    {
      var i, j :| 0 <= i < |exts| && 0 <= j < |exts| && exts[i] == e && exts[j] == f;
      if i < j {
        RunsApart(dev, bs, exts, parts, i, j);
      } else if j < i {
        RunsApart(dev, bs, exts, parts, j, i);
      }
    }
  }

  lemma RunsApart(dev: Bytes, bs: nat, exts: seq<FileExtent>, parts: seq<Bytes>, i: nat, j: nat)
    requires Laid(dev, bs, exts, parts) && i < j < |exts|
    ensures exts[i].logicalAddr + exts[i].lenBytes <= exts[j].logicalAddr
  {
    forall k | 0 <= k < j
      ensures parts[..j][..k] == parts[..k]
    {
    }
    assert exts[..j][i] in exts[..j];
    EndsBefore(dev, bs, exts[..j], parts[..j], exts[i]);
  }

  /** A plain file in several runs, its extents inserted in any order: any read of it is that slice of its
      parts joined. */
  lemma StitchedFileReadsBack(v: OpenVolume, mt: Tree, recs: seq<Record>, z: Zlib, ino: Inode,
                              exts: seq<FileExtent>, inserted: seq<FileExtent>, parts: seq<Bytes>, offset: nat, n: nat)
    requires HoldsRecords(v, mt, recs) && ino.privateId < P60 && !ino.IsDir() && !ino.IsCompressed()
    requires Laid(v.dev, v.bs, exts, parts) && ino.size == |Joined(parts)| && multiset(inserted) == multiset(exts)
    requires forall i :: 0 <= i < |inserted| ==> ExtentTyped(inserted[i])
    requires SelectRecords(recs, ino.privateId, APFS_TYPE_FILE_EXTENT) == ExtentRecords(ino.privateId, inserted)
    ensures FileContent(v, z, ino, offset, n) == Ok(Slice(Joined(parts), offset, n))
  {
    hide HoldsRecords, SelectRecords, Laid, FileContent, FileSlice, Joined, Slice, Disjoint;
    LaidDisjoint(v.dev, v.bs, exts, parts);
    SameExtents(exts, inserted);
    PlainFileReadsBack(v, mt, recs, z, ino, inserted, offset, n);
    OrderIsIrrelevant(v.dev, v.bs, exts, inserted, ino.size, offset, n);
    StitchedReads(v.dev, v.bs, exts, parts, offset, n);
  }

  lemma SameExtents(exts: seq<FileExtent>, inserted: seq<FileExtent>)
    requires multiset(inserted) == multiset(exts)
    ensures forall e :: e in exts <==> e in inserted
    ensures Disjoint(exts) ==> Disjoint(inserted)
  {
    forall e
      ensures e in exts <==> e in inserted
    {
      assert e in exts <==> e in multiset(exts);
      assert e in inserted <==> e in multiset(inserted);
    }
  }

  /** At or past its end a file reads as nothing, whatever its extents are. */
  lemma PastTheEnd(v: OpenVolume, z: Zlib, ino: Inode, offset: nat, n: nat)
    requires !ino.IsDir() && !ino.IsCompressed() && offset >= ino.size
    ensures FileContent(v, z, ino, offset, n) == Ok([])
  {
  }

  /** Where every window of a file reads as that slice of its content, the file read whole is its content,
      unless it claims 2^63 bytes or more: then asking for the buffer panics. */
  lemma WholeFileReads(v: OpenVolume, z: Zlib, ino: Inode, content: Bytes)
    requires ino.size == |content| && FileContent(v, z, ino, 0, |content|) == Ok(Slice(content, 0, |content|))
    ensures WholeContent(v, z, ino) == if |content| < 0x8000_0000_0000_0000 then Ok(content) else Err(Panic)
  {
    hide FileContent;
    assert Slice(content, 0, |content|) == content;
  }
}
