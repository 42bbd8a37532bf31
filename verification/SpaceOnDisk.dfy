/** The allocator and the free count in terms of the structures on disk, laid out field by field. */
module SpaceOnDisk {
  import opened Bytes
  import opened Checkpoint
  import opened Checksum
  import opened Formats
  import opened Mount
  import opened Spaceman

  // ---------- what the allocator sees ----------

  lemma {:induction false} BitIs(v: nat, k: nat)
    ensures Bit(v, k) <==> v / Pow2(k) % 2 == 1
  {
    if k > 0 {
      BitIs(v / 2, k - 1);
      Halved(v, Pow2(k - 1));
    }
  }

  /** Bit `b % 8` of byte `b / 8`. */
  predicate BitSet(bitmap: Bytes, b: nat) {
    b / 8 < |bitmap| && bitmap[b / 8] / Pow2(b % 8) % 2 == 1
  }

  /** The abstract space is the bitmap's set bits, the container's block count, of which one bitmap block
      covers 32768, and the two counters of the chunk and of the main device. */
  lemma SpaceIs(bitmap: Bytes, nx: NxPhys, nxRest: Bytes, c: ChunkPhys, cRest: Bytes, s: SpacemanPhys, sRest: Bytes)
    requires |bitmap| == |nx.Bytes() + nxRest| == |c.Bytes() + cRest| == |s.Bytes() + sRest| == 4096
    requires nx.Typed() && c.Typed() && s.Typed()
    ensures SpaceOf(bitmap, Field(nx.Bytes() + nxRest, 40, 8), c.Bytes() + cRest, s.Bytes() + sRest) ==
            Space((set b: nat | b < 32768 && BitSet(bitmap, b)), Min(nx.blockCount, 32768), c.freeCount, s.freeCount)
  {
    hide Field, Bit;
    NxIdentity(nx, nxRest);
    ChunkReads(c, cRest);
    SpacemanReads(s, sRest);
    forall b: nat | b < 32768
      ensures Used(bitmap, b) <==> BitSet(bitmap, b)
    {
      BitIs(bitmap[b / 8], b % 8);
    }
    assert UsedBlocks(bitmap) == set b: nat | b < 32768 && BitSet(bitmap, b);
  }

  // ---------- what the allocator writes ----------

  lemma Replaced(pre: Bytes, w: Bytes, post: Bytes, x: Bytes)
    requires |w| == |x|
    ensures Splice(pre + w + post, |pre|, x) == pre + x + post
  {
  }

  lemma StampedIs(o: ObjPhys, tail: Bytes)
    ensures var b := o.Bytes() + tail;
            Stamped(b) == o.(cksum := Fletcher(b)).Bytes() + tail
  {
    hide Fletcher, LE;
    var b := o.Bytes() + tail;
    var rest := LE(o.oid, 8) + LE(o.xid, 8) + LE(o.otype, 4) + LE(o.subtype, 4) + tail;
    assert b == LE(o.cksum, 8) + rest;
    assert b[8..] == rest;
    assert Stamped(b) == LE(Fletcher(b), 8) + rest;
    assert o.(cksum := Fletcher(b)).Bytes() + tail == LE(Fletcher(b), 8) + rest;
  }

  /** Rewriting the device's counter changes the free count and the checksum, and no other field. */
  lemma DeviceCounterWritten(s: SpacemanPhys, rest: Bytes, v: nat) returns (now: SpacemanPhys)
    ensures now == s.(freeCount := v, obj := s.obj.(cksum := now.obj.cksum))
    ensures Recounted(s.Bytes() + rest, SM_FREE_COUNT, 8, v) == now.Bytes() + rest
  {
    hide LE, Fletcher, Stamped;
    var pre, post := s.obj.Bytes() + s.Sizes() + s.Counts(), LE(s.addrOffset, 4) + rest;
    assert s.Bytes() + rest == pre + LE(s.freeCount, 8) + post;
    Replaced(pre, LE(s.freeCount, 8), post, LE(v, 8));
    var tail := s.Sizes() + s.Counts() + LE(v, 8) + post;
    assert pre + LE(v, 8) + post == s.obj.Bytes() + tail;
    StampedIs(s.obj, tail);
    now := s.(freeCount := v, obj := s.obj.(cksum := Fletcher(s.obj.Bytes() + tail)));
    assert now.Sizes() == s.Sizes() && now.Counts() == s.Counts();
    assert now.Bytes() + rest == now.obj.Bytes() + tail;
  }

  /** And so for the chunk's. */
  lemma ChunkCounterWritten(c: ChunkPhys, rest: Bytes, v: nat) returns (now: ChunkPhys)
    ensures now == c.(freeCount := v, obj := c.obj.(cksum := now.obj.cksum))
    ensures Recounted(c.Bytes() + rest, CI_FREE_COUNT, 4, v) == now.Bytes() + rest
  {
    hide LE, Fletcher, Stamped;
    var mid := LE(c.index, 4) + LE(c.count, 4) + LE(c.xid, 8) + LE(c.addr, 8) + LE(c.blockCount, 4);
    var pre, post := c.obj.Bytes() + mid, LE(c.bitmapAddr, 8) + rest;
    assert c.Bytes() + rest == pre + LE(c.freeCount, 4) + post;
    Replaced(pre, LE(c.freeCount, 4), post, LE(v, 4));
    var tail := mid + LE(v, 4) + post;
    assert pre + LE(v, 4) + post == c.obj.Bytes() + tail;
    StampedIs(c.obj, tail);
    now := c.(freeCount := v, obj := c.obj.(cksum := Fletcher(c.obj.Bytes() + tail)));
    assert now.Bytes() + rest == now.obj.Bytes() + tail;
  }

  /** The addresses the writer follows: the list of chunk blocks lies at the recorded offset, and the
      bitmap where the first chunk says. */
  lemma AddressesAre(s: SpacemanPhys, sRest: Bytes, c: ChunkPhys, cRest: Bytes)
    requires s.Typed() && c.Typed()
    ensures |s.Bytes() + sRest| >= 84 && Field(s.Bytes() + sRest, SM_ADDR_OFFSET, 4) == s.addrOffset
    ensures |c.Bytes() + cRest| >= 72 && Field(c.Bytes() + cRest, CI_BITMAP_ADDR, 8) == c.bitmapAddr
  {
    hide Field;
    SpacemanReads(s, sRest);
    ChunkReads(c, cRest);
  }

  // ---------- what the reader reports ----------

  /** Block `p` is a valid space manager of this oid. */
  ghost predicate Manages(dev: Bytes, bs: nat, p: nat, oid: nat) {
    bs >= 4096 && Has(dev, bs, p) &&
    var b := BlockAt(dev, bs, p);
    Verify(b) && Field(b, 24, 4) % 0x1_0000 == 5 && Field(b, 8, 8) == oid
  }

  lemma ManagesIs(dev: Bytes, bs: nat, p: nat, oid: nat)
    requires bs >= 4096
    ensures IsSpaceman(SlotAt(dev, bs, p), oid) <==> Manages(dev, bs, p, oid)
  {
    hide Verify, Field;
  }

  /** A device whose mounted superblock is `x`: its free count is that of the first valid space manager with
      the superblock's oid in the superblock's data area. */
  lemma FreeCountIs(dev: Bytes, x: NxPhys, p: nat, s: SpacemanPhys, rest: Bytes)
    requires x.Typed() && x.blockSize in BLOCK_SIZES && s.Typed()
    requires x.dataBase <= p < x.dataBase + x.dataBlocks % 0x8000_0000 && Manages(dev, x.blockSize, p, x.spacemanOid)
    requires BlockAt(dev, x.blockSize, p) == s.Bytes() + rest
    requires forall q: nat :: x.dataBase <= q < p ==> !Manages(dev, x.blockSize, q, x.spacemanOid)
    ensures CountOf(DataSlots(dev, Kept(x)), x.spacemanOid) == Ok(s.freeCount)
  {
    hide IsSpaceman, Manages, SlotAt, BlockAt, Has, Field;
    var bs := x.blockSize;
    var slots := DataSlots(dev, Kept(x));
    forall j | 0 <= j < p - x.dataBase
      ensures !IsSpaceman(slots[j], x.spacemanOid)
    {
      ManagesIs(dev, bs, x.dataBase + j, x.spacemanOid);
    }
    ManagesIs(dev, bs, p, x.spacemanOid);
    CountAt(slots, x.spacemanOid, p - x.dataBase);
    ManagerSlot(dev, bs, p, x.spacemanOid);
    SpacemanReads(s, rest);
  }

  lemma ManagerSlot(dev: Bytes, bs: nat, p: nat, oid: nat)
    requires Manages(dev, bs, p, oid)
    ensures Has(dev, bs, p) && SlotAt(dev, bs, p) == Some(BlockAt(dev, bs, p))
  {
    hide BlockAt, SlotAt, Has, Verify, Field;
    SlotHolds(dev, bs, p);
  }

  /** Without one there is no count. */
  lemma NoManagerNoCount(dev: Bytes, x: NxPhys)
    requires x.blockSize in BLOCK_SIZES
    requires forall q: nat :: x.dataBase <= q < x.dataBase + x.dataBlocks % 0x8000_0000 ==> !Manages(dev, x.blockSize, q, x.spacemanOid)
    ensures CountOf(DataSlots(dev, Kept(x)), x.spacemanOid) == Err(Corrupt)
  {
    hide IsSpaceman, Manages, SlotAt;
    var slots := DataSlots(dev, Kept(x));
    forall j | 0 <= j < |slots|
      ensures !IsSpaceman(slots[j], x.spacemanOid)
    {
      ManagesIs(dev, x.blockSize, x.dataBase + j, x.spacemanOid);
    }
    NoneCounts(slots, x.spacemanOid);
  }

  lemma {:induction false} NoneCounts(slots: seq<Slot>, oid: nat)
    requires forall j :: 0 <= j < |slots| ==> !IsSpaceman(slots[j], oid)
    ensures CountOf(slots, oid) == Err(Corrupt)
  {
    hide IsSpaceman;
    if |slots| > 0 {
      NoneCounts(slots[1..], oid);
    }
  }
}
