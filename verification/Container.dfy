/** Loading checked blocks from a device (`BlockLoader for Container` in `container.rs`). */
module Container {
  import opened Bytes
  import opened Checksum
  import opened Device
  import opened Omap

  /** `paddr * bs` on 64 bits: past them a build with overflow checks panics, and one without wraps. */
  function Address(paddr: nat, bs: nat, checked: bool): Result<nat> {
    if paddr * bs < U64 then Ok(paddr * bs) else if checked then Err(Panic) else Ok(paddr * bs % U64)
  }

  /** `load_raw`. */
  function LoadRaw(dev: Bytes, bs: nat, checked: bool, paddr: nat): Result<Bytes> {
    var off :- Address(paddr, bs, checked);
    ReadExact(dev, off, bs)
  }

  /** `load_checked`, as the loader every tree reads through. */
  function LoadChecked(dev: Bytes, bs: nat, checked: bool): Loader {
    paddr =>
      var block :- LoadRaw(dev, bs, checked, paddr);
      if Verify(block) then Ok(block) else Err(BadChecksum(paddr))
  }

  method Load(dev: Bytes, bs: nat, checked: bool, paddr: nat) returns (r: Result<Bytes>)
    ensures r == LoadChecked(dev, bs, checked)(paddr)
  {
    hide Verify;
    var block :- LoadRaw(dev, bs, checked, paddr);
    var valid := VerifyObject(block);
    if !valid {
      return Err(BadChecksum(paddr));
    }
    return Ok(block);
  }

  /** Loading a block panics exactly in a build with overflow checks, at an address past 64 bits. */
  lemma LoadPanics(dev: Bytes, bs: nat, checked: bool, paddr: nat)
    ensures LoadChecked(dev, bs, checked)(paddr) == Err(Panic) <==> checked && paddr * bs >= U64
  {
    hide Verify;
  }

  /** A build without overflow checks takes the block 2^64 bytes further on for block `p`. */
  lemma WrappedBlock(dev: Bytes, bs: nat, p: nat, k: nat)
    requires k * bs == 0x1_0000_0000_0000_0000 && p * bs < 0x1_0000_0000_0000_0000
    ensures LoadRaw(dev, bs, false, p + k) == LoadRaw(dev, bs, false, p) == ReadExact(dev, p * bs, bs)
  {
    assert (p + k) * bs == p * bs + k * bs;
    DivModUnique((p + k) * bs, U64, 1, p * bs);
  }

  /** The device with one block replaced. */
  function WithBlock(dev: Bytes, bs: nat, paddr: nat, block: Bytes): (r: Bytes)
    requires |block| == bs && paddr * bs + bs <= |dev|
    ensures |r| == |dev|
  {
    Splice(dev, paddr * bs, block)
  }

  lemma ReplacedBlock(dev: Bytes, bs: nat, paddr: nat, block: Bytes, other: nat)
    requires bs > 0 && |block| == bs && paddr * bs + bs <= |dev|
    ensures ReadExact(WithBlock(dev, bs, paddr, block), paddr * bs, bs) == Ok(block)
    ensures other != paddr ==> ReadExact(WithBlock(dev, bs, paddr, block), other * bs, bs) == ReadExact(dev, other * bs, bs)
  {
    SpliceReads(dev, paddr * bs, block);
    if other != paddr {
      Apart(bs, paddr, other);
    }
  }

  lemma Apart(bs: nat, a: nat, b: nat)
    requires a != b
    ensures a * bs + bs <= b * bs || b * bs + bs <= a * bs
  {
    MulAtLeast(bs, a - b);
    assert a * bs - b * bs == bs * (a - b);
  }

  /** One or two of a block's bits flipped. */
  function Damaged(block: Bytes, p: nat, q: nat): (r: Bytes)
    requires p <= q < 8 * |block|
    ensures |r| == |block|
  {
    if p == q then Flip(block, p) else Flip(Flip(block, p), q)
  }

  lemma DamageShows(block: Bytes, p: nat, q: nat)
    requires |block| % 4 == 0 && |block| / 4 - 2 <= MOD - 2 && Verify(block) && p <= q < 8 * |block|
    ensures !Verify(Damaged(block, p, q))
  {
    hide Verify, Flip;
    if p == q {
      DetectsFlip(block, p);
    } else {
      DetectsTwoFlips(block, p, q);
    }
  }

  /** Any one-bit or two-bit damage to a block the container loads makes it refuse that block, by number,
      and changes no other. */
  lemma DamageIsRefused(dev: Bytes, bs: nat, checked: bool, paddr: nat, p: nat, q: nat)
    requires bs >= 8 && bs % 4 == 0 && bs / 4 - 2 <= MOD - 2
    requires paddr * bs < U64 && LoadChecked(dev, bs, checked)(paddr).Ok? && p <= q < 8 * bs
    ensures paddr * bs + bs <= |dev|
    ensures var now := WithBlock(dev, bs, paddr, Damaged(LoadChecked(dev, bs, checked)(paddr).value, p, q));
            && LoadChecked(now, bs, checked)(paddr) == Err(BadChecksum(paddr))
            && forall other: nat :: other != paddr && other * bs < U64 ==>
                 LoadChecked(now, bs, checked)(other) == LoadChecked(dev, bs, checked)(other)
  {
    hide Verify, Damaged, WithBlock;
    var block := LoadChecked(dev, bs, checked)(paddr).value;
    DamageShows(block, p, q);
    var damaged := Damaged(block, p, q);
    ReplacedBlock(dev, bs, paddr, damaged, paddr);
    forall other: nat | other != paddr && other * bs < U64
      ensures LoadRaw(WithBlock(dev, bs, paddr, damaged), bs, checked, other) == LoadRaw(dev, bs, checked, other)
    {
      ReplacedBlock(dev, bs, paddr, damaged, other);
    }
  }
}
