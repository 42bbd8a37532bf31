/** The space manager: the writer's first-fit allocator (`alloc_blocks`) and the reader's free-block
    counter (`free_block_count`). */
module Spaceman {
  import opened Bytes
  import opened Checksum
  import opened NodeCodec
  import opened NodeWriter
  import opened Checkpoint

  const CI_FREE_COUNT := 60
  const CI_BITMAP_ADDR := 64
  const SM_FREE_COUNT := 72
  const SM_ADDR_OFFSET := 80
  const BITS := 32768

  // ---------- bits of a byte ----------

  predicate Bit(b: nat, k: nat) {
    if k == 0 then b % 2 == 1 else Bit(b / 2, k - 1)
  }

  /** `b | 1 << k`. */
  function SetBit(b: nat, k: nat): nat {
    if k == 0 then (if b % 2 == 1 then b else b + 1) else 2 * SetBit(b / 2, k - 1) + b % 2
  }

  lemma {:induction false} SetBitSets(b: nat, k: nat, j: nat)
    ensures Bit(SetBit(b, k), j) <==> Bit(b, j) || j == k
    decreases k
  {
    if k > 0 && j > 0 {
      SetBitSets(b / 2, k - 1, j - 1);
      assert SetBit(b, k) / 2 == SetBit(b / 2, k - 1);
    } else if k == 0 && j > 0 {
      assert SetBit(b, 0) / 2 == b / 2;
    }
  }

  lemma {:induction false} SetBitBound(b: nat, k: nat, n: nat)
    requires k < n && b < Pow2(n)
    ensures SetBit(b, k) < Pow2(n)
    decreases k
  {
    if k > 0 {
      SetBitBound(b / 2, k - 1, n - 1);
    } else {
      assert Pow2(n) % 2 == 0;
    }
  }

  predicate Used(bitmap: Bytes, blk: nat) {
    blk / 8 < |bitmap| && Bit(bitmap[blk / 8], blk % 8)
  }

  ghost predicate Free(bitmap: Bytes, s: nat, count: nat) {
    forall b :: s <= b < s + count ==> !Used(bitmap, b)
  }

  /** The first free run of `count` of the first `n` blocks starts at `s`. */
  ghost predicate FirstFit(bitmap: Bytes, s: nat, count: nat, n: nat) {
    && count > 0 && s + count <= n && Free(bitmap, s, count)
    && forall q: nat :: q < s ==> !Free(bitmap, q, count)
  }

  ghost predicate NoFit(bitmap: Bytes, count: nat, n: nat) {
    count == 0 || forall s: nat :: s + count <= n ==> !Free(bitmap, s, count)
  }

  // ---------- the search ----------

  /** The search of `alloc_blocks`; `None` is its panic. Blocks past the bitmap's end are never reached. */
  method FindRun(bitmap: Bytes, total: nat, count: nat) returns (r: Option<nat>)
    requires |bitmap| == BS
    ensures if r.Some? then FirstFit(bitmap, r.value, count, Min(total, BITS)) else NoFit(bitmap, count, Min(total, BITS))
  {
    var run, start := 0, 0;
    for blk := 0 to total
      invariant blk <= BITS && run <= blk && (run > 0 ==> start == blk - run) && (count > 0 ==> run < count)
      invariant Stretch(bitmap, blk, run)
      invariant NoFit(bitmap, count, blk)
    {
      if blk / 8 >= |bitmap| {
        return None;
      }
      var used := Used(bitmap, blk);
      RunsEnding(bitmap, count, blk, run);
      if used {
        run := 0;
      } else {
        if run == 0 {
          start := blk;
        }
        run := run + 1;
        if run == count {
          return Some(start);
        }
      }
    }
    return None;
  }

  /** The last `run` blocks before `blk` are free, and no longer stretch is. */
  ghost predicate Stretch(bitmap: Bytes, blk: nat, run: nat) {
    && run <= blk && (run < blk ==> Used(bitmap, blk - run - 1))
    && forall b :: blk - run <= b < blk ==> !Used(bitmap, b)
  }

  /** A run that ends just past `blk` fills the stretch that ends there. */
  lemma RunsEnding(bitmap: Bytes, count: nat, blk: nat, run: nat)
    requires Stretch(bitmap, blk, run) && NoFit(bitmap, count, blk) && (count > 0 ==> run < count)
    ensures Used(bitmap, blk) || run + 1 != count ==> NoFit(bitmap, count, blk + 1)
    ensures !Used(bitmap, blk) && run + 1 == count ==> FirstFit(bitmap, blk - run, count, blk + 1)
  {
    if count > 0 {
      forall s: nat | s + count <= blk + 1 && Free(bitmap, s, count)
        ensures s + count == blk + 1 && !Used(bitmap, blk) && run + 1 == count
      {
        assert s + count > blk;
        assert run < blk ==> !(s <= blk - run - 1);
      }
    }
  }

  // ---------- alloc_blocks ----------

  /** Where the structures of a one-chunk space manager lie, and its two counters' offsets. */
  datatype Spaceman = Spaceman(paddr: nat, cibPaddr: nat, bitmapPaddr: nat, freeCountOff: nat, ciFreeCountOff: nat)

  /** The layout `discover_spaceman` relies on: whole, separate blocks, none of them block zero. */
  ghost predicate Separate(img: Image, sm: Spaceman)
    reads img
  {
    && img.Has(0) && img.Has(sm.paddr) && img.Has(sm.cibPaddr) && img.Has(sm.bitmapPaddr)
    && sm.paddr != sm.cibPaddr && sm.paddr != sm.bitmapPaddr && sm.cibPaddr != sm.bitmapPaddr
    && sm.paddr != 0 && sm.cibPaddr != 0 && sm.bitmapPaddr != 0
    && sm.freeCountOff == SM_FREE_COUNT && sm.ciFreeCountOff == CI_FREE_COUNT
  }

  /** `discover_spaceman`; an address outside the image panics. */
  method DiscoverSpaceman(img: Image, paddr: nat) returns (r: Result<Spaceman>)
    ensures r == if !img.Has(paddr) then Err(Panic) else
                   var blk := img.Block(paddr);
                   var addrOffset := Field(blk, SM_ADDR_OFFSET, 4);
                   if addrOffset + 8 > BS || !img.Has(Field(blk, addrOffset, 8)) then Err(Panic) else
                     var cibPaddr := Field(blk, addrOffset, 8);
                     var bitmapPaddr := Field(img.Block(cibPaddr), CI_BITMAP_ADDR, 8);
                     Ok(Spaceman(paddr, cibPaddr, bitmapPaddr, SM_FREE_COUNT, CI_FREE_COUNT))
  {
    if !img.Has(paddr) {
      return Err(Panic);
    }
    var blk := img.Block(paddr);
    var addrOffset := Field(blk, SM_ADDR_OFFSET, 4);
    if addrOffset + 8 > BS {
      return Err(Panic);
    }
    var cibPaddr := Field(blk, addrOffset, 8);
    if !img.Has(cibPaddr) {
      return Err(Panic);
    }
    var bitmapPaddr := Field(img.Block(cibPaddr), CI_BITMAP_ADDR, 8);
    return Ok(Spaceman(paddr, cibPaddr, bitmapPaddr, SM_FREE_COUNT, CI_FREE_COUNT));
  }

  /** Set the bits of a run. */
  method MarkRun(bitmap: Bytes, start: nat, count: nat) returns (bm: Bytes)
    requires start + count <= 8 * |bitmap|
    ensures Marked(bitmap, start, count, bm)
  {
    bm := bitmap;
    for b := start to start + count
      invariant Marked(bitmap, start, b - start, bm)
    {
      var was := bm;
      var i := b / 8;
      ByteBound(bm[i], b % 8);
      bm := bm[i := SetBit(bm[i], b % 8)];
      OneMarked(was, b, bm);
    }
  }

  ghost predicate Marked(was: Bytes, start: nat, count: nat, now: Bytes) {
    |now| == |was| && forall b: nat :: Used(now, b) <==> Used(was, b) || start <= b < start + count
  }

  lemma ByteBound(v: byte, k: nat)
    requires k < 8
    ensures SetBit(v, k) < 256
  {
    assert Pow2(8) == 256 by {
      assert Pow2(4) == 16;
    }
    SetBitBound(v, k, 8);
  }

  lemma OneMarked(was: Bytes, b: nat, now: Bytes)
    requires b / 8 < |was| && SetBit(was[b / 8], b % 8) < 256
    requires now == was[b / 8 := SetBit(was[b / 8], b % 8)]
    ensures forall c: nat :: Used(now, c) <==> Used(was, c) || c == b
  {
    hide Bit, SetBit;
    forall c: nat
      ensures Used(now, c) <==> Used(was, c) || c == b
    {
      if c / 8 == b / 8 {
        SetBitSets(was[b / 8], b % 8, c % 8);
      }
    }
  }

  /** `was` with a counter replaced and its checksum fixed. */
  function Recounted(was: Bytes, off: nat, width: nat, v: nat): (r: Bytes)
    requires 8 <= off && off + width <= |was|
    ensures |r| == |was|
  {
    Stamped(Splice(was, off, LE(v, width)))
  }

  /** Allocate `count` contiguous blocks. `None` is a panic: no run is free, or a counter is too small. */
  method AllocBlocks(img: Image, sm: Spaceman, count: nat) returns (r: Option<nat>)
    requires Separate(img, sm)
    modifies img
    ensures var bitmap, n := old(img.Block(sm.bitmapPaddr)), Min(Field(old(img.Block(0)), 40, 8), BITS);
            var chunkFree, deviceFree := Field(old(img.Block(sm.cibPaddr)), CI_FREE_COUNT, 4),
                                         Field(old(img.Block(sm.paddr)), SM_FREE_COUNT, 8);
            && (r.None? ==> NoFit(bitmap, count, n) || chunkFree < count || deviceFree < count)
            && (r.Some? ==>
                  && Separate(img, sm) && |img.data| == |old(img.data)|
                  && FirstFit(bitmap, r.value, count, n) && count <= chunkFree && count <= deviceFree
                  && Marked(bitmap, r.value, count, img.Block(sm.bitmapPaddr))
                  && img.Block(sm.cibPaddr) == Recounted(old(img.Block(sm.cibPaddr)), CI_FREE_COUNT, 4, chunkFree - count)
                  && img.Block(sm.paddr) == Recounted(old(img.Block(sm.paddr)), SM_FREE_COUNT, 8, deviceFree - count)
                  && forall m: nat :: img.Has(m) && m != sm.paddr && m != sm.cibPaddr && m != sm.bitmapPaddr ==>
                       img.Block(m) == old(img.Block(m)))
  {
    hide Stamped, LE, Field;
    var bitmap := img.Block(sm.bitmapPaddr);
    var total := Field(img.Block(0), 40, 8);
    var run := FindRun(bitmap, total, count);
    if run.None? {
      return None;
    }
    var start := run.value;
    var marked := MarkRun(bitmap, start, count);
    img.Store(sm.bitmapPaddr, marked);
    var cur := Field(img.Block(sm.cibPaddr), sm.ciFreeCountOff, 4);
    if cur < count {
      return None;
    }
    img.Store(sm.cibPaddr, Splice(img.Block(sm.cibPaddr), sm.ciFreeCountOff, LE(cur - count, 4)));
    img.FixChecksum(sm.cibPaddr);
    cur := Field(img.Block(sm.paddr), sm.freeCountOff, 8);
    if cur < count {
      return None;
    }
    img.Store(sm.paddr, Splice(img.Block(sm.paddr), sm.freeCountOff, LE(cur - count, 8)));
    img.FixChecksum(sm.paddr);
    return Some(start);
  }

  // ---------- the abstract allocator ----------

  /** What the three structures say: the used blocks, and the two counters. */
  datatype Space = Space(used: set<nat>, total: nat, chunkFree: nat, deviceFree: nat)

  ghost function Range(start: nat, count: nat): set<nat> {
    set b: nat | b < start + count && From(start, b)
  }

  predicate From(start: nat, b: nat) {
    start <= b
  }

  ghost function Clear(a: Space): set<nat> {
    set b: nat | b < a.total && b !in a.used
  }

  ghost function UsedBlocks(bitmap: Bytes): set<nat> {
    set b: nat | b < BITS && Used(bitmap, b)
  }

  ghost function SpaceOf(bitmap: Bytes, total: nat, cib: Bytes, sm: Bytes): Space
    requires |cib| == |sm| == BS
  {
    Space(UsedBlocks(bitmap), Min(total, BITS), Field(cib, CI_FREE_COUNT, 4), Field(sm, SM_FREE_COUNT, 8))
  }

  /** One allocation: the least free run, exactly its blocks taken, both counters lowered by its length. */
  ghost predicate Allocates(a: Space, count: nat, start: nat, b: Space) {
    && count > 0 && Range(start, count) <= Clear(a)
    && (forall q: nat :: q < start ==> !(Range(q, count) <= Clear(a)))
    && count <= a.chunkFree && count <= a.deviceFree
    && b == Space(a.used + Range(start, count), a.total, a.chunkFree - count, a.deviceFree - count)
  }

  /** Clear bits, the chunk's counter and the device's counter agree. */
  ghost predicate Balanced(a: Space) {
    |Clear(a)| == a.chunkFree == a.deviceFree
  }

  lemma {:induction false} RangeSize(start: nat, count: nat)
    ensures |Range(start, count)| == count
  {
    if count == 0 {
      assert Range(start, 0) == {};
    } else {
      RangeSize(start, count - 1);
      assert Range(start, count) == Range(start, count - 1) + {start + count - 1};
    }
  }

  /** An allocation keeps the three in balance, and takes its blocks from the clear ones only. */
  lemma AllocationKeepsBalance(a: Space, count: nat, start: nat, b: Space)
    requires Balanced(a) && Allocates(a, count, start, b)
    ensures Balanced(b) && Clear(b) == Clear(a) - Range(start, count)
  {
    assert Clear(b) == Clear(a) - Range(start, count);
    RangeSize(start, count);
  }

  /** While they balance the counters never stand in the way: a free run is all an allocation needs. */
  lemma BalanceSuffices(a: Space, count: nat, start: nat)
    requires Balanced(a) && Range(start, count) <= Clear(a)
    ensures count <= a.chunkFree && count <= a.deviceFree
  {
    RangeSize(start, count);
    var rest := Clear(a) - Range(start, count);
    assert Clear(a) == Range(start, count) + rest;
  }

  /** `states[i + 1]` follows `states[i]` by allocation `i`. */
  ghost predicate Allocations(states: seq<Space>, counts: seq<nat>, starts: seq<nat>) {
    && |states| == |counts| + 1 == |starts| + 1
    && forall i :: 0 <= i < |counts| ==> Allocates(states[i], counts[i], starts[i], states[i + 1])
  }

  function Sum(counts: seq<nat>): nat {
    if |counts| == 0 then 0 else Sum(counts[..|counts| - 1]) + counts[|counts| - 1]
  }

  /** Over any run of allocations the counters stay in balance, used blocks stay used, and each state
      holds everything allocated before it. */
  lemma {:induction false} RunKeepsBalance(states: seq<Space>, counts: seq<nat>, starts: seq<nat>, i: nat)
    requires Allocations(states, counts, starts) && Balanced(states[0]) && i <= |counts|
    ensures Balanced(states[i]) && states[0].used <= states[i].used
    ensures states[i].deviceFree == states[0].deviceFree - Sum(counts[..i])
    ensures forall j :: 0 <= j < i ==> Range(starts[j], counts[j]) <= states[i].used
  {
    if i > 0 {
      RunKeepsBalance(states, counts, starts, i - 1);
      assert Allocates(states[i - 1], counts[i - 1], starts[i - 1], states[i]);
      AllocationKeepsBalance(states[i - 1], counts[i - 1], starts[i - 1], states[i]);
      assert counts[..i][..i - 1] == counts[..i - 1];
    } else {
      assert counts[..0] == [];
    }
  }

  lemma {:induction false} UsedGrows(states: seq<Space>, counts: seq<nat>, starts: seq<nat>, i: nat)
    requires Allocations(states, counts, starts) && i <= |counts|
    ensures states[0].used <= states[i].used && states[i].total == states[0].total
    ensures forall j :: 0 <= j < i ==> Range(starts[j], counts[j]) <= states[i].used
  {
    if i > 0 {
      UsedGrows(states, counts, starts, i - 1);
      assert Allocates(states[i - 1], counts[i - 1], starts[i - 1], states[i]);
    }
  }

  /** A range handed out avoids the blocks used at the start, and every range handed out before it. */
  lemma RangesAreDisjoint(states: seq<Space>, counts: seq<nat>, starts: seq<nat>, j: nat)
    requires Allocations(states, counts, starts) && j < |counts|
    ensures Range(starts[j], counts[j]) !! states[0].used
    ensures forall i :: 0 <= i < j ==> Range(starts[i], counts[i]) !! Range(starts[j], counts[j])
  {
    UsedGrows(states, counts, starts, j);
    assert Allocates(states[j], counts[j], starts[j], states[j + 1]);
  }

  // ---------- the allocator on blocks is the abstract one ----------

  lemma FreeIsClear(bitmap: Bytes, a: Space, s: nat, count: nat)
    requires a.used == UsedBlocks(bitmap) && a.total <= BITS && count > 0
    ensures Range(s, count) <= Clear(a) <==> s + count <= a.total && Free(bitmap, s, count)
  {
    if Range(s, count) <= Clear(a) {
      assert s + count - 1 in Range(s, count);
      forall b | s <= b < s + count
        ensures !Used(bitmap, b)
      {
        assert b in Range(s, count);
      }
    }
  }

  /** What `AllocBlocks` does to the image's blocks is one abstract allocation, with both checksums
      valid and nothing else in the counters' blocks changed. */
  lemma AllocBlocksAllocates(bitmap: Bytes, total: nat, cib: Bytes, sm: Bytes, count: nat, start: nat, now: Bytes)
    requires |bitmap| == |cib| == |sm| == BS
    requires var chunkFree, deviceFree := Field(cib, CI_FREE_COUNT, 4), Field(sm, SM_FREE_COUNT, 8);
             count <= chunkFree && count <= deviceFree
    requires FirstFit(bitmap, start, count, Min(total, BITS)) && Marked(bitmap, start, count, now)
    ensures var cib', sm' := Recounted(cib, CI_FREE_COUNT, 4, Field(cib, CI_FREE_COUNT, 4) - count),
                             Recounted(sm, SM_FREE_COUNT, 8, Field(sm, SM_FREE_COUNT, 8) - count);
            && Allocates(SpaceOf(bitmap, total, cib, sm), count, start, SpaceOf(now, total, cib', sm'))
            && Verify(cib') && Verify(sm')
            && OnlyChanged(cib, cib', CI_FREE_COUNT, 4) && OnlyChanged(sm, sm', SM_FREE_COUNT, 8)
  {
    hide Recounted, Field, Used;
    var a := SpaceOf(bitmap, total, cib, sm);
    CounterSet(cib, CI_FREE_COUNT, 4, U32, a.chunkFree - count);
    CounterSet(sm, SM_FREE_COUNT, 8, U64, a.deviceFree - count);
    forall q: nat | q <= start
      ensures Range(q, count) <= Clear(a) <==> q + count <= a.total && Free(bitmap, q, count)
    {
      FreeIsClear(bitmap, a, q, count);
    }
    assert UsedBlocks(now) == a.used + Range(start, count);
  }

  /** Beyond the checksum, two blocks differ at most in the `n` bytes at `off`. */
  ghost predicate OnlyChanged(was: Bytes, now: Bytes, off: nat, n: nat)
    requires off + n <= |was|
  {
    |now| == |was| >= 8 && forall lo, hi :: 8 <= lo <= hi <= |was| && (hi <= off || off + n <= lo) ==> now[lo..hi] == was[lo..hi]
  }

  lemma CounterSet(was: Bytes, off: nat, width: nat, m: nat, v: nat)
    requires |was| == BS && 8 <= off && off + width <= |was| && m == Pow256(width)
    requires v <= Field(was, off, width)
    ensures var now := Recounted(was, off, width, v);
            Field(now, off, width) == v && Verify(now) && OnlyChanged(was, now, off, width)
  {
    hide Field, LE, Stamped, Verify;
    FieldBound(was, off, width);
    LEField(v, width, m);
    DivModUnique(v, m, 0, v);
    var mid := Splice(was, off, LE(v, width));
    SpliceReads(was, off, LE(v, width));
    StampVerifies(mid);
    forall lo, hi | 8 <= lo <= hi <= |was|
      ensures Stamped(mid)[lo..hi] == mid[lo..hi]
    {
      SubSlice(Stamped(mid), 8, BS, lo - 8, hi - 8);
      SubSlice(mid, 8, BS, lo - 8, hi - 8);
      assert mid[8..] == mid[8..BS] && Stamped(mid)[8..] == Stamped(mid)[8..BS];
    }
    FieldIs(Stamped(mid), off, width, LE(v, width));
  }

  // ---------- the reader's counter ----------

  /** A slot of the checkpoint data area that holds the space manager `oid`, checksum valid. */
  predicate IsSpaceman(s: Slot, oid: nat) {
    s.Some? && ParseObjHeader(s.value).Ok? &&
    var obj := ParseObjHeader(s.value).value;
    BaseType(obj) == OBJECT_TYPE_SPACEMAN && obj.oid == oid && Verify(s.value)
  }

  /** The free count of the first such slot. */
  function CountOf(slots: seq<Slot>, oid: nat): Result<nat> {
    if |slots| == 0 then Err(Corrupt)
    else if IsSpaceman(slots[0], oid) then ReadLE(slots[0].value, SM_FREE_COUNT, 8)
    else CountOf(slots[1..], oid)
  }

  /** The checkpoint data area. */
  function DataSlots(dev: Bytes, sb: Superblock): seq<Slot> {
    Slots(dev, sb.blockSize, sb.dataBase, sb.dataBlocks % 0x8000_0000)
  }

  /** `free_block_count` over the checkpoint data area. */
  method FreeBlockCount(dev: Bytes, sb: Superblock) returns (r: Result<nat>)
    ensures r == CountOf(DataSlots(dev, sb), sb.spacemanOid)
  {
    hide Verify, SlotAt, ReadLE;
    var n := sb.dataBlocks % 0x8000_0000;
    ghost var slots := DataSlots(dev, sb);
    assert slots[0..] == slots;
    for i := 0 to n
      invariant CountOf(slots, sb.spacemanOid) == CountOf(slots[i..], sb.spacemanOid)
    {
      assert slots[i..][0] == slots[i] && slots[i..][1..] == slots[i + 1..];
      var slot := SlotAt(dev, sb.blockSize, sb.dataBase + i);
      if slot.None? {
        continue;
      }
      var hdr := ParseObjHeader(slot.value);
      if hdr.Err? || BaseType(hdr.value) != OBJECT_TYPE_SPACEMAN || hdr.value.oid != sb.spacemanOid {
        continue;
      }
      var valid := VerifyObject(slot.value);
      if !valid {
        continue;
      }
      return ReadLE(slot.value, SM_FREE_COUNT, 8);
    }
    return Err(Corrupt);
  }

  lemma {:induction false} CountAt(slots: seq<Slot>, oid: nat, i: nat)
    requires i < |slots| && IsSpaceman(slots[i], oid)
    requires forall j :: 0 <= j < i ==> !IsSpaceman(slots[j], oid)
    ensures CountOf(slots, oid) == ReadLE(slots[i].value, SM_FREE_COUNT, 8)
  {
    if i > 0 {
      CountAt(slots[1..], oid, i - 1);
    }
  }

  /** While clear bits and counters balance, the reader reports the number of clear blocks. */
  lemma ReaderCountsClear(slots: seq<Slot>, oid: nat, i: nat, bitmap: Bytes, total: nat, cib: Bytes, sm: Bytes)
    requires i < |slots| && slots[i] == Some(sm) && IsSpaceman(slots[i], oid) && |cib| == |sm| == BS
    requires forall j :: 0 <= j < i ==> !IsSpaceman(slots[j], oid)
    requires Balanced(SpaceOf(bitmap, total, cib, sm))
    ensures CountOf(slots, oid) == Ok(|Clear(SpaceOf(bitmap, total, cib, sm))|)
  {
    hide IsSpaceman;
    CountAt(slots, oid, i);
  }

  // ---------- any run of allocations on an image ----------

  function BlockIn(data: Bytes, n: nat): (b: Bytes)
    requires (n + 1) * BS <= |data|
    ensures |b| == BS
  {
    data[n * BS..(n + 1) * BS]
  }

  ghost function SpaceIn(img: Image, sm: Spaceman): Space
    requires Separate(img, sm)
    reads img
  {
    SpaceOf(img.Block(sm.bitmapPaddr), Field(img.Block(0), 40, 8), img.Block(sm.cibPaddr), img.Block(sm.paddr))
  }

  ghost predicate CanAllocate(a: Space, count: nat) {
    count > 0 && count <= a.chunkFree && count <= a.deviceFree && exists s: nat :: Range(s, count) <= Clear(a)
  }

  /** In the checkpoint data area of `n` blocks at `base` the reader finds the space manager at slot `at`,
      and neither the bitmap nor the chunk block comes before it there. */
  ghost predicate ReaderFinds(data: Bytes, sm: Spaceman, base: nat, n: nat, oid: nat, at: nat) {
    && at < n && base + at == sm.paddr
    && IsSpaceman(SlotAt(data, BS, sm.paddr), oid)
    && forall p: nat :: base <= p < base + at ==>
         !IsSpaceman(SlotAt(data, BS, p), oid) && p != sm.cibPaddr && p != sm.bitmapPaddr
  }

  /** Blocks other than the three an allocation writes are as they were. */
  ghost predicate OthersKept(was: Bytes, now: Bytes, sm: Spaceman) {
    |now| == |was| &&
    forall m: nat :: (m + 1) * BS <= |was| && m != sm.paddr && m != sm.cibPaddr && m != sm.bitmapPaddr ==>
      BlockIn(now, m) == BlockIn(was, m)
  }

  lemma SlotIsBlock(data: Bytes, p: nat)
    ensures SlotAt(data, BS, p) == if (p + 1) * BS <= |data| then Some(BlockIn(data, p)) else None
  {
  }

  lemma ReaderReads(data: Bytes, sm: Spaceman, base: nat, n: nat, oid: nat, at: nat)
    requires ReaderFinds(data, sm, base, n, oid, at) && (sm.paddr + 1) * BS <= |data|
    ensures CountOf(Slots(data, BS, base, n), oid) == Ok(Field(BlockIn(data, sm.paddr), SM_FREE_COUNT, 8))
  {
    hide IsSpaceman, SlotAt, Field;
    var slots := Slots(data, BS, base, n);
    forall j | 0 <= j < at
      ensures !IsSpaceman(slots[j], oid)
    {
      assert slots[j] == SlotAt(data, BS, base + j);
    }
    CountAt(slots, oid, at);
    SlotIsBlock(data, sm.paddr);
  }

  lemma RecountedIsSpaceman(was: Bytes, oid: nat, v: nat)
    requires |was| == BS && IsSpaceman(Some(was), oid) && v <= Field(was, SM_FREE_COUNT, 8)
    ensures IsSpaceman(Some(Recounted(was, SM_FREE_COUNT, 8, v)), oid)
  {
    hide Field, Recounted, Verify;
    var now := Recounted(was, SM_FREE_COUNT, 8, v);
    Pow256Sizes();
    CounterSet(was, SM_FREE_COUNT, 8, U64, v);
    assert now[8..16] == was[8..16] && now[24..28] == was[24..28];
    SameField(now, 8, was, 8, 8);
    SameField(now, 24, was, 24, 4);
  }

  /** An allocation does not change where the reader finds the space manager. */
  lemma ReaderStillFinds(was: Bytes, now: Bytes, sm: Spaceman, base: nat, n: nat, oid: nat, at: nat, v: nat)
    requires |was| == |now| && (sm.paddr + 1) * BS <= |was| && ReaderFinds(was, sm, base, n, oid, at)
    requires v <= Field(BlockIn(was, sm.paddr), SM_FREE_COUNT, 8)
    requires BlockIn(now, sm.paddr) == Recounted(BlockIn(was, sm.paddr), SM_FREE_COUNT, 8, v)
    requires OthersKept(was, now, sm)
    ensures ReaderFinds(now, sm, base, n, oid, at)
  {
    hide IsSpaceman, Field, Recounted, SlotAt, BlockIn;
    SlotIsBlock(was, sm.paddr);
    SlotIsBlock(now, sm.paddr);
    RecountedIsSpaceman(BlockIn(was, sm.paddr), oid, v);
    forall p: nat | base <= p < base + at
      ensures SlotAt(now, BS, p) == SlotAt(was, BS, p)
    {
      SlotIsBlock(was, p);
      SlotIsBlock(now, p);
    }
  }

  /** After an allocation, all three blocks rewritten, the reader finds the space manager where it was and
      sees the new count. */
  lemma ReaderSeesAllocation(was: Bytes, now: Bytes, sm: Spaceman, base: nat, n: nat, oid: nat, at: nat, v: nat)
    requires |was| == |now| && (sm.paddr + 1) * BS <= |was| && ReaderFinds(was, sm, base, n, oid, at)
    requires v <= Field(BlockIn(was, sm.paddr), SM_FREE_COUNT, 8)
    requires BlockIn(now, sm.paddr) == Recounted(BlockIn(was, sm.paddr), SM_FREE_COUNT, 8, v)
    requires OthersKept(was, now, sm)
    ensures ReaderFinds(now, sm, base, n, oid, at) && CountOf(Slots(now, BS, base, n), oid) == Ok(v)
  {
    hide Field, Recounted, BlockIn, Slots, CountOf, Verify, OnlyChanged, ReaderFinds, OthersKept;
    ReaderStillFinds(was, now, sm, base, n, oid, at, v);
    ReaderReads(now, sm, base, n, oid, at);
    Pow256Sizes();
    CounterSet(BlockIn(was, sm.paddr), SM_FREE_COUNT, 8, U64, v);
  }

  /** One allocation on an image is one abstract allocation; it fails only if no allocation is possible. */
  method AllocOne(img: Image, sm: Spaceman, count: nat) returns (r: Option<nat>)
    requires Separate(img, sm)
    modifies img
    ensures r.None? ==> !CanAllocate(old(SpaceIn(img, sm)), count)
    ensures r.Some? ==>
              && Separate(img, sm) && |img.data| == |old(img.data)|
              && Allocates(old(SpaceIn(img, sm)), count, r.value, SpaceIn(img, sm))
              && Verify(img.Block(sm.cibPaddr)) && Verify(img.Block(sm.paddr))
              && OthersKept(old(img.data), img.data, sm)
              && SpaceIn(img, sm).deviceFree <= Field(BlockIn(old(img.data), sm.paddr), SM_FREE_COUNT, 8)
              && BlockIn(img.data, sm.paddr) ==
                 Recounted(BlockIn(old(img.data), sm.paddr), SM_FREE_COUNT, 8, SpaceIn(img, sm).deviceFree)
  {
    hide Field, Recounted, Used, Verify, Free;
    ghost var bitmap, cib, b := img.Block(sm.bitmapPaddr), img.Block(sm.cibPaddr), img.Block(sm.paddr);
    ghost var total := Field(img.Block(0), 40, 8);
    NoFitCannot(bitmap, total, cib, b, count);
    r := AllocBlocks(img, sm, count);
    if r.Some? {
      AllocBlocksAllocates(bitmap, total, cib, b, count, r.value, img.Block(sm.bitmapPaddr));
      DeviceFreeIs(img, sm);
      forall m: nat | img.Has(m) && m != sm.paddr && m != sm.cibPaddr && m != sm.bitmapPaddr
        ensures BlockIn(img.data, m) == BlockIn(old(img.data), m)
      {
        assert img.Block(m) == old(img.Block(m));
      }
    }
  }

  lemma NoFitCannot(bitmap: Bytes, total: nat, cib: Bytes, b: Bytes, count: nat)
    requires |cib| == |b| == BS
    ensures NoFit(bitmap, count, Min(total, BITS)) ==> !CanAllocate(SpaceOf(bitmap, total, cib, b), count)
  {
    hide Field, Used, Free;
    var a := SpaceOf(bitmap, total, cib, b);
    if count > 0 {
      forall s: nat
        ensures Range(s, count) <= Clear(a) <==> s + count <= a.total && Free(bitmap, s, count)
      {
        FreeIsClear(bitmap, a, s, count);
      }
    }
  }

  /** Any run of allocations on one image, as the writer makes them one after another; it ends early only
      where an allocation is impossible. The ranges are disjoint and avoid what was used; bitmap and counters
      stay in balance; and the reader, wherever it finds the space manager, still finds it there and counts
      the clear blocks. */
  method AllocAll(img: Image, sm: Spaceman, counts: seq<nat>, ghost base: nat, ghost n: nat, ghost oid: nat, ghost at: nat)
    returns (starts: seq<nat>, ghost states: seq<Space>)
    requires Separate(img, sm) && Balanced(SpaceIn(img, sm)) && ReaderFinds(img.data, sm, base, n, oid, at)
    modifies img
    ensures |starts| <= |counts| && Allocations(states, counts[..|starts|], starts) && states[0] == old(SpaceIn(img, sm))
    ensures |starts| < |counts| ==> !CanAllocate(states[|starts|], counts[|starts|])
    ensures forall j :: 0 <= j < |starts| ==> Range(starts[j], counts[j]) !! old(SpaceIn(img, sm)).used
    ensures forall i, j :: 0 <= i < j < |starts| ==> Range(starts[i], counts[i]) !! Range(starts[j], counts[j])
    ensures |starts| == |counts| ==>
              && Separate(img, sm) && |img.data| == |old(img.data)| && SpaceIn(img, sm) == states[|counts|]
              && Balanced(SpaceIn(img, sm))
              && CountOf(Slots(img.data, BS, base, n), oid) == Ok(|Clear(SpaceIn(img, sm))|)
              && OthersKept(old(img.data), img.data, sm)
  {
    hide Field, Recounted, Verify, IsSpaceman, SlotAt, Slots, SpaceOf, Clear, Range, Allocates;
    starts, states := [], [SpaceIn(img, sm)];
    for i := 0 to |counts|
      invariant |starts| == i && Allocations(states, counts[..i], starts) && states[0] == old(SpaceIn(img, sm))
      invariant Separate(img, sm) && |img.data| == |old(img.data)| && SpaceIn(img, sm) == states[i]
      invariant Balanced(states[i]) && ReaderFinds(img.data, sm, base, n, oid, at)
      invariant OthersKept(old(img.data), img.data, sm)
    {
      ghost var was := img.data;
      var start := AllocOne(img, sm, counts[i]);
      if start.None? {
        AllDisjoint(states, counts[..i], starts);
        return;
      }
      AllocationKeepsBalance(states[i], counts[i], start.value, SpaceIn(img, sm));
      ReaderSeesAllocation(was, img.data, sm, base, n, oid, at, SpaceIn(img, sm).deviceFree);
      RunPush(states, counts[..i], starts, counts[i], start.value, SpaceIn(img, sm));
      assert counts[..i] + [counts[i]] == counts[..i + 1];
      starts, states := starts + [start.value], states + [SpaceIn(img, sm)];
    }
    assert counts[..|counts|] == counts;
    AllDisjoint(states, counts, starts);
    ReaderReads(img.data, sm, base, n, oid, at);
    DeviceFreeIs(img, sm);
  }

  lemma DeviceFreeIs(img: Image, sm: Spaceman)
    requires Separate(img, sm)
    ensures SpaceIn(img, sm).deviceFree == Field(BlockIn(img.data, sm.paddr), SM_FREE_COUNT, 8)
  {
  }

  lemma RunPush(states: seq<Space>, counts: seq<nat>, starts: seq<nat>, count: nat, start: nat, next: Space)
    requires Allocations(states, counts, starts) && Allocates(states[|counts|], count, start, next)
    ensures Allocations(states + [next], counts + [count], starts + [start])
  {
    hide Allocates;
  }

  lemma AllDisjoint(states: seq<Space>, counts: seq<nat>, starts: seq<nat>)
    requires Allocations(states, counts, starts)
    ensures forall j :: 0 <= j < |starts| ==> Range(starts[j], counts[j]) !! states[0].used
    ensures forall i, j :: 0 <= i < j < |starts| ==> Range(starts[i], counts[i]) !! Range(starts[j], counts[j])
  {
    hide Range, Allocates;
    forall j | 0 <= j < |starts|
      ensures Range(starts[j], counts[j]) !! states[0].used
      ensures forall i :: 0 <= i < j ==> Range(starts[i], counts[i]) !! Range(starts[j], counts[j])
    {
      RangesAreDisjoint(states, counts, starts, j);
    }
  }
}
