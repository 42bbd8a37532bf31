/** Mounting a device, from its bytes: which superblock of a whole device the reader mounts, and what it
    takes from a volume's superblock. The premises are laid out field by field (`Formats`). */
module Mount {
  import opened Bytes
  import opened Checksum
  import opened Formats
  import opened Checkpoint
  import opened Container

  // ---------- a container's superblock ----------

  const BLOCK_SIZES: set<nat> := {4096, 8192, 16384, 32768, 65536}

  /** What the reader keeps of a superblock. */
  function Kept(x: NxPhys): Superblock {
    Superblock(x.obj.xid, x.blockSize, x.descBlocks, x.dataBlocks, x.descBase, x.dataBase, x.spacemanOid, x.omapOid)
  }

  /** A four-byte tag, first byte lowest. */
  lemma Tag(b: Bytes, pos: nat, w: Bytes)
    requires pos + 4 <= |b| && |w| == 4
    ensures b[pos..pos + 4] == w <==>
              Field(b, pos, 4) == (w[0] as int) + 0x100 * (w[1] as int) + 0x1_0000 * (w[2] as int) + 0x100_0000 * (w[3] as int)
  {
    hide Field;
    FourBytes(b, pos);
    if b[pos..pos + 4] == w {
      assert b[pos] == w[0] && b[pos + 1] == w[1] && b[pos + 2] == w[2] && b[pos + 3] == w[3];
    }
    FourDigits(b[pos], b[pos + 1], b[pos + 2], b[pos + 3], w[0], w[1], w[2], w[3]);
    if b[pos] == w[0] && b[pos + 1] == w[1] && b[pos + 2] == w[2] && b[pos + 3] == w[3] {
      assert b[pos..pos + 4] == w;
    }
  }

  lemma FourDigits(a: byte, b: byte, c: byte, d: byte, e: byte, f: byte, g: byte, h: byte)
    ensures (a as int) + 0x100 * (b as int) + 0x1_0000 * (c as int) + 0x100_0000 * (d as int) ==
            (e as int) + 0x100 * (f as int) + 0x1_0000 * (g as int) + 0x100_0000 * (h as int) <==>
            a == e && b == f && c == g && d == h
  {
  }

  /** A superblock laid out in order is read field for field; of another type, without the 984 bytes up to the
      end of its list of volumes, or with a block size that is none, it is refused. */
  lemma SuperblockReads(x: NxPhys, rest: Bytes)
    requires x.Typed()
    ensures ParseSuperblock(x.Bytes() + rest) ==
            if x.obj.otype % 0x1_0000 != 1 || |x.Bytes() + rest| < 984 then Err(Parse)
            else if x.blockSize !in BLOCK_SIZES then Err(Corrupt)
            else Ok(Kept(x))
  {
    hide Field;
    NxIdentity(x, rest);
    NxAreas(x, rest);
    Tag(x.Bytes() + rest, 32, [0x4E, 0x58, 0x53, 0x42]);
  }

  /** A block of that type without the tag "NXSB" is not one. */
  lemma NoTagNoSuperblock(b: Bytes)
    requires |b| >= 36 && Field(b, 24, 4) % 0x1_0000 == 1 && b[32..36] != [0x4E, 0x58, 0x53, 0x42]
    ensures ParseSuperblock(b) == Err(BadMagic)
  {
    hide Field;
    Tag(b, 32, [0x4E, 0x58, 0x53, 0x42]);
  }

  // ---------- which one is mounted ----------

  predicate Has(dev: Bytes, bs: nat, p: nat) {
    p * bs + bs <= |dev|
  }

  function BlockAt(dev: Bytes, bs: nat, p: nat): (b: Bytes)
    requires Has(dev, bs, p)
    ensures |b| == bs
  {
    dev[p * bs..p * bs + bs]
  }

  /** Block `p` lies on the device, verifies and is a container superblock by its type. */
  ghost predicate Mountable(dev: Bytes, bs: nat, p: nat) {
    bs >= 32 && Has(dev, bs, p) && Verify(BlockAt(dev, bs, p)) && Field(BlockAt(dev, bs, p), 24, 4) % 0x1_0000 == 1
  }

  ghost function XidAt(dev: Bytes, bs: nat, p: nat): nat
    requires Mountable(dev, bs, p)
  {
    Field(BlockAt(dev, bs, p), 16, 8)
  }

  /** Block zero starts with this superblock, whose descriptor area is a range of blocks. */
  ghost predicate StartsWith(dev: Bytes, zero: NxPhys) {
    && zero.Typed() && zero.obj.otype % 0x1_0000 == 1 && zero.blockSize in BLOCK_SIZES && zero.descBlocks < 0x8000_0000
    && zero.blockSize <= |dev| && dev[..176] == zero.Bytes()
  }

  lemma Bootstraps(dev: Bytes, zero: NxPhys)
    requires StartsWith(dev, zero)
    ensures Bootstrap(dev) == Ok((Kept(zero), dev[..zero.blockSize]))
  {
    hide ParseSuperblock;
    var probe := dev[0..4096];
    assert probe == zero.Bytes() + dev[176..4096];
    SuperblockReads(zero, dev[176..4096]);
    assert dev[0..zero.blockSize] == dev[..zero.blockSize];
  }

  /** A slot of the scan is the block at its address. */
  lemma SlotIs(dev: Bytes, bs: nat, p: nat)
    requires bs >= 32
    ensures Candidate(SlotAt(dev, bs, p)) == if Mountable(dev, bs, p) then Some(XidAt(dev, bs, p)) else None
  {
    hide Verify, Field;
  }

  lemma AreaIs(dev: Bytes, zero: NxPhys)
    requires zero.blockSize in BLOCK_SIZES && zero.descBlocks < 0x8000_0000
    ensures var slots := DescriptorSlots(dev, Kept(zero));
            && |slots| == zero.descBlocks
            && forall i :: 0 <= i < |slots| ==>
                 && slots[i] == SlotAt(dev, zero.blockSize, zero.descBase + i)
                 && Candidate(slots[i]) == if Mountable(dev, zero.blockSize, zero.descBase + i)
                                           then Some(XidAt(dev, zero.blockSize, zero.descBase + i)) else None
  {
    hide Candidate, SlotAt, Mountable;
    var slots := DescriptorSlots(dev, Kept(zero));
    forall i | 0 <= i < |slots|
      ensures Candidate(slots[i]) == if Mountable(dev, zero.blockSize, zero.descBase + i)
                                     then Some(XidAt(dev, zero.blockSize, zero.descBase + i)) else None
    {
      SlotIs(dev, zero.blockSize, zero.descBase + i);
    }
  }

  /** Block `p` of the descriptor area is mountable, no block of it is newer, and none before it is as new. */
  ghost predicate Newest(dev: Bytes, zero: NxPhys, p: nat) {
    && zero.descBase <= p < zero.descBase + zero.descBlocks && Mountable(dev, zero.blockSize, p)
    && forall q: nat :: zero.descBase <= q < zero.descBase + zero.descBlocks && Mountable(dev, zero.blockSize, q) ==>
         if q < p then XidAt(dev, zero.blockSize, q) < XidAt(dev, zero.blockSize, p)
         else XidAt(dev, zero.blockSize, q) <= XidAt(dev, zero.blockSize, p)
  }

  lemma NewestWins(dev: Bytes, zero: NxPhys, p: nat)
    requires zero.blockSize in BLOCK_SIZES && zero.descBlocks < 0x8000_0000 && Newest(dev, zero, p)
    ensures Wins(DescriptorSlots(dev, Kept(zero)), p - zero.descBase)
  {
    hide Candidate, SlotAt, Mountable, DescriptorSlots;
    AreaIs(dev, zero);
  }

  /** The newest superblock of the descriptor area, laid out in order, and nothing newer in block zero. */
  ghost predicate Current(dev: Bytes, zero: NxPhys, p: nat, x: NxPhys, rest: Bytes) {
    && StartsWith(dev, zero) && Newest(dev, zero, p)
    && x.Typed() && x.blockSize in BLOCK_SIZES
    && BlockAt(dev, zero.blockSize, p) == x.Bytes() + rest
    && (Verify(dev[..zero.blockSize]) ==> zero.obj.xid <= x.obj.xid)
  }

  lemma CurrentSlot(dev: Bytes, zero: NxPhys, p: nat, x: NxPhys, rest: Bytes)
    requires Current(dev, zero, p, x, rest)
    ensures var slots, i := DescriptorSlots(dev, Kept(zero)), p - zero.descBase;
            && Wins(slots, i) && i < |slots| && slots[i] == Some(x.Bytes() + rest) && Candidate(slots[i]) == Some(x.obj.xid)
            && ParseSuperblock(x.Bytes() + rest) == Ok(Kept(x))
  {
    hide Candidate, Verify, ParseSuperblock, DescriptorSlots, Wins, Field, SlotAt, BlockAt, Has;
    AreaIs(dev, zero);
    NewestWins(dev, zero, p);
    SuperblockReads(x, rest);
    NxIdentity(x, rest);
    SlotHolds(dev, zero.blockSize, p);
  }

  /** The newest superblock of the descriptor area is mounted unless a valid block zero is newer still; what
      other blocks hold, those of the data area among them, does not matter. */
  lemma NewestIsMounted(dev: Bytes, zero: NxPhys, p: nat, x: NxPhys, rest: Bytes, r: Result<Superblock>, choice: Choice)
    requires Current(dev, zero, p, x, rest) && Opens(dev, r, choice)
    ensures r == Ok(Kept(x)) && p >= zero.descBase && choice == SlotChoice(p - zero.descBase)
  {
    hide Candidate, Verify, ParseSuperblock, DescriptorSlots, Wins, BlockAt, Has, Mountable;
    Bootstraps(dev, zero);
    CurrentSlot(dev, zero, p, x, rest);
    var i := p - zero.descBase;
    ChoiceIsUnique(DescriptorSlots(dev, Kept(zero)), ZeroXid(Kept(zero), dev[..zero.blockSize]), choice, SlotChoice(i));
  }

  lemma SlotHolds(dev: Bytes, bs: nat, p: nat)
    requires bs > 0 && Has(dev, bs, p)
    ensures SlotAt(dev, bs, p) == Some(BlockAt(dev, bs, p))
  {
  }

  /** A valid block zero newer than every mountable block of the descriptor area is mounted. */
  lemma BlockZeroIsMounted(dev: Bytes, zero: NxPhys, r: Result<Superblock>, choice: Choice)
    requires StartsWith(dev, zero) && Verify(dev[..zero.blockSize]) && Opens(dev, r, choice)
    requires forall q: nat :: zero.descBase <= q < zero.descBase + zero.descBlocks && Mountable(dev, zero.blockSize, q) ==>
               XidAt(dev, zero.blockSize, q) < zero.obj.xid
    ensures r == Ok(Kept(zero)) && choice == BlockZero
  {
    hide Candidate, Verify, ParseSuperblock, DescriptorSlots, Mountable;
    Bootstraps(dev, zero);
    AreaIs(dev, zero);
    var raw := dev[..zero.blockSize];
    assert raw == zero.Bytes() + dev[176..zero.blockSize];
    SuperblockReads(zero, dev[176..zero.blockSize]);
    ChoiceIsUnique(DescriptorSlots(dev, Kept(zero)), ZeroXid(Kept(zero), raw), choice, BlockZero);
  }

  /** Where neither block zero nor a block of the descriptor area is valid, nothing is mounted. */
  lemma NothingIsMounted(dev: Bytes, zero: NxPhys, r: Result<Superblock>, choice: Choice)
    requires StartsWith(dev, zero) && !Verify(dev[..zero.blockSize]) && Opens(dev, r, choice)
    requires forall q: nat :: zero.descBase <= q < zero.descBase + zero.descBlocks ==> !Mountable(dev, zero.blockSize, q)
    ensures r == Err(Corrupt) && choice == Nothing
  {
    hide Candidate, Verify, ParseSuperblock, DescriptorSlots, Mountable;
    Bootstraps(dev, zero);
    AreaIs(dev, zero);
    ChoiceIsUnique(DescriptorSlots(dev, Kept(zero)), ZeroXid(Kept(zero), dev[..zero.blockSize]), choice, Nothing);
  }

  /** A descriptor area kept in a tree is not supported, whatever else the device holds. */
  lemma TreeAreaIsRefused(dev: Bytes, zero: NxPhys, r: Result<Superblock>, choice: Choice)
    requires zero.Typed() && zero.obj.otype % 0x1_0000 == 1 && zero.blockSize in BLOCK_SIZES && zero.descBlocks >= 0x8000_0000
    requires zero.blockSize <= |dev| && dev[..176] == zero.Bytes() && Opens(dev, r, choice)
    ensures r == Err(Unsupported)
  {
    hide ParseSuperblock;
    assert dev[0..4096] == zero.Bytes() + dev[176..4096];
    SuperblockReads(zero, dev[176..4096]);
  }

  /** Writing any block but block zero and those of the descriptor area changes nothing. */
  lemma OtherBlocksDoNotMatter(dev: Bytes, zero: NxPhys, p: nat, block: Bytes, r: Result<Superblock>, c: Choice,
                               s: Result<Superblock>, d: Choice)
    requires StartsWith(dev, zero) && |block| == zero.blockSize && p * zero.blockSize + zero.blockSize <= |dev|
    requires p != 0 && !(zero.descBase <= p < zero.descBase + zero.descBlocks)
    requires Opens(dev, r, c) && Opens(WithBlock(dev, zero.blockSize, p, block), s, d)
    ensures r == s && c == d
  {
    hide Candidate, Verify, ParseSuperblock, WithBlock, DescriptorSlots, IsChoice;
    var now := WithBlock(dev, zero.blockSize, p, block);
    SameStart(dev, zero, p, block);
    Bootstraps(dev, zero);
    Bootstraps(now, zero);
    SameArea(dev, zero, p, block);
    ChoiceIsUnique(DescriptorSlots(dev, Kept(zero)), ZeroXid(Kept(zero), dev[..zero.blockSize]), c, d);
  }

  lemma SameStart(dev: Bytes, zero: NxPhys, p: nat, block: Bytes)
    requires StartsWith(dev, zero) && |block| == zero.blockSize && p * zero.blockSize + zero.blockSize <= |dev| && p != 0
    ensures var now := WithBlock(dev, zero.blockSize, p, block);
            StartsWith(now, zero) && now[..zero.blockSize] == dev[..zero.blockSize]
  {
    hide WithBlock;
    var bs := zero.blockSize;
    var now := WithBlock(dev, bs, p, block);
    ReplacedBlock(dev, bs, p, block, 0);
    assert now[..bs] == dev[..bs];
    assert dev[..176] == dev[..bs][..176] && now[..176] == now[..bs][..176];
  }

  lemma SameArea(dev: Bytes, zero: NxPhys, p: nat, block: Bytes)
    requires zero.blockSize in BLOCK_SIZES && |block| == zero.blockSize && p * zero.blockSize + zero.blockSize <= |dev|
    requires zero.descBlocks < 0x8000_0000 && !(zero.descBase <= p < zero.descBase + zero.descBlocks)
    ensures DescriptorSlots(dev, Kept(zero)) == DescriptorSlots(WithBlock(dev, zero.blockSize, p, block), Kept(zero))
  {
    hide WithBlock, SlotAt;
    var bs := zero.blockSize;
    var a := DescriptorSlots(dev, Kept(zero));
    var b := DescriptorSlots(WithBlock(dev, bs, p, block), Kept(zero));
    forall i | 0 <= i < |a|
      ensures a[i] == b[i]
    {
      SameSlot(dev, bs, p, block, zero.descBase + i);
    }
  }

  lemma SameSlot(dev: Bytes, bs: nat, p: nat, block: Bytes, q: nat)
    requires bs > 0 && |block| == bs && p * bs + bs <= |dev| && p != q
    ensures SlotAt(dev, bs, q) == SlotAt(WithBlock(dev, bs, p, block), bs, q)
  {
    hide WithBlock;
    ReplacedBlock(dev, bs, p, block, q);
  }
}
