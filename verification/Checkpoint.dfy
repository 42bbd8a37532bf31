/** Opening a container (`container.rs`): which checkpoint superblock is mounted. */
module Checkpoint {
  import opened Bytes
  import opened Checksum
  import opened Device
  import opened NodeCodec
  import opened NodeWriter

  const NX_MAGIC := 0x4253_584e
  const NX_DEFAULT_BLOCK_SIZE := 4096
  const NX_SIZE := 984

  /** The fields of `nx_superblock_t` that mounting uses. */
  datatype Superblock = Superblock(xid: nat, blockSize: nat, descBlocks: nat, dataBlocks: nat, descBase: nat,
                                   dataBase: nat, spacemanOid: nat, omapOid: nat)

  function ParseSuperblock(block: Bytes): Result<Superblock> {
    var obj :- ParseObjHeader(block);
    if BaseType(obj) != OBJECT_TYPE_NX_SUPERBLOCK then Err(Parse)
    else
      var magic :- ReadLE(block, OBJ_HDR_SIZE, 4);
      if magic != NX_MAGIC then Err(BadMagic)
      else if |block| < NX_SIZE then Err(Parse)
      else
        var bs := Field(block, 36, 4);
        if bs in {4096, 8192, 16384, 32768, 65536} then
          Ok(Superblock(obj.xid, bs, Field(block, 104, 4), Field(block, 108, 4), Field(block, 112, 8),
                        Field(block, 120, 8), Field(block, 152, 8), Field(block, 160, 8)))
        else Err(Corrupt)
  }

  // ---------- the descriptor area ----------

  /** A slot of the area: its block, if it can be read. */
  type Slot = Option<Bytes>

  function SlotAt(dev: Bytes, bs: nat, paddr: nat): Slot {
    match ReadExact(dev, paddr * bs, bs)
    case Ok(b) => Some(b)
    case Err(_) => None
  }

  function Slots(dev: Bytes, bs: nat, base: nat, n: nat): (r: seq<Slot>)
    ensures |r| == n
  {
    seq(n, i requires 0 <= i < n => SlotAt(dev, bs, base + i))
  }

  /** The transaction id of a slot that may be mounted: readable, a superblock by type, checksum valid. */
  function Candidate(s: Slot): Option<nat> {
    if s.None? then None
    else
      match ParseObjHeader(s.value)
      case Err(_) => None
      case Ok(obj) => if BaseType(obj) == OBJECT_TYPE_NX_SUPERBLOCK && Verify(s.value) then Some(obj.xid) else None
  }

  /** The order in which `open` considers: `a` is kept over a later `b` unless `b` is strictly newer. */
  predicate Newer(a: Option<nat>, b: Option<nat>) {
    a.Some? && (b.None? || a.value > b.value)
  }

  /** Slot `i` may be mounted, no slot is newer, and no earlier slot is as new. */
  ghost predicate Wins(slots: seq<Slot>, i: nat) {
    i < |slots| && Candidate(slots[i]).Some? &&
    forall j :: 0 <= j < |slots| ==>
      !Newer(Candidate(slots[j]), Candidate(slots[i])) && (j < i ==> Newer(Candidate(slots[i]), Candidate(slots[j])))
  }

  /** The mounted choice: a slot, block zero, or nothing. */
  datatype Choice = SlotChoice(index: nat) | BlockZero | Nothing

  /** `zero` is block zero's transaction id if its checksum is valid. */
  ghost predicate IsChoice(slots: seq<Slot>, zero: Option<nat>, c: Choice) {
    match c
    case SlotChoice(i) => Wins(slots, i) && !Newer(zero, Candidate(slots[i]))
    case BlockZero => zero.Some? && forall s :: s in slots ==> Newer(zero, Candidate(s))
    case Nothing => zero.None? && forall s :: s in slots ==> Candidate(s).None?
  }

  lemma ChoiceIsUnique(slots: seq<Slot>, zero: Option<nat>, c: Choice, d: Choice)
    requires IsChoice(slots, zero, c) && IsChoice(slots, zero, d)
    ensures c == d
  {
    hide Candidate;
    if c.SlotChoice? {
      assert slots[c.index] in slots;
    }
    if d.SlotChoice? {
      assert slots[d.index] in slots;
    }
  }

  // ---------- Container::open ----------

  method ScanDescriptors(dev: Bytes, bs: nat, base: nat, n: nat) returns (best: Option<(nat, Bytes)>, ghost at: nat)
    ensures var slots := Slots(dev, bs, base, n);
            if best.None? then forall s :: s in slots ==> Candidate(s).None?
            else Wins(slots, at) && slots[at] == Some(best.value.1) && Candidate(slots[at]) == Some(best.value.0)
  {
    hide Candidate, SlotAt;
    best, at := None, 0;
    ghost var slots := Slots(dev, bs, base, n);
    for i := 0 to n
      invariant best.None? ==> forall j :: 0 <= j < i ==> Candidate(slots[j]).None?
      invariant best.Some? ==> at < i && Wins(slots[..i], at) && slots[at] == Some(best.value.1) &&
                               Candidate(slots[at]) == Some(best.value.0)
    {
      assert slots[..i + 1] == slots[..i] + [slots[i]];
      var found := ReadCandidate(dev, bs, base + i);
      if found.None? {
        continue;
      }
      if best.None? || found.value.0 > best.value.0 {
        best, at := found, i;
      }
    }
    assert slots[..n] == slots;
  }

  /** One turn of the scan: a block that may be mounted, or a `continue`. */
  method ReadCandidate(dev: Bytes, bs: nat, paddr: nat) returns (found: Option<(nat, Bytes)>)
    ensures var slot := SlotAt(dev, bs, paddr);
            if found.None? then Candidate(slot).None?
            else slot == Some(found.value.1) && Candidate(slot) == Some(found.value.0)
  {
    hide Verify;
    var blk := ReadExact(dev, paddr * bs, bs);
    if blk.Err? {
      return None;
    }
    var hdr := ParseObjHeader(blk.value);
    if hdr.Err? || BaseType(hdr.value) != OBJECT_TYPE_NX_SUPERBLOCK {
      return None;
    }
    var valid := VerifyObject(blk.value);
    if !valid {
      return None;
    }
    return Some((hdr.value.xid, blk.value));
  }

  /** How far opening gets before it chooses. */
  function Bootstrap(dev: Bytes): Result<(Superblock, Bytes)> {
    var probe :- ReadExact(dev, 0, NX_DEFAULT_BLOCK_SIZE);
    var sb :- ParseSuperblock(probe);
    var raw :- ReadExact(dev, 0, sb.blockSize);
    if sb.descBlocks >= 0x8000_0000 then Err(Unsupported) else Ok((sb, raw))
  }

  function DescriptorSlots(dev: Bytes, sb: Superblock): seq<Slot> {
    Slots(dev, sb.blockSize, sb.descBase, sb.descBlocks % 0x8000_0000)
  }

  function ZeroXid(sb: Superblock, raw: Bytes): Option<nat> {
    if Verify(raw) then Some(sb.xid) else None
  }

  /** The block a choice stands for. */
  function ChosenBlock(slots: seq<Slot>, raw: Bytes, c: Choice): Option<Bytes> {
    match c
    case SlotChoice(i) => if i < |slots| then slots[i] else None
    case BlockZero => Some(raw)
    case Nothing => None
  }

  /** What opening a device may give: the superblock of a choice among the descriptor area and block zero. */
  ghost predicate Opens(dev: Bytes, r: Result<Superblock>, choice: Choice) {
    match Bootstrap(dev)
    case Err(e) => r == Err(e)
    case Ok((sb, raw)) =>
      var slots := DescriptorSlots(dev, sb);
      && IsChoice(slots, ZeroXid(sb, raw), choice)
      && r == match ChosenBlock(slots, raw, choice)
              case None => Err(Corrupt)
              case Some(b) => ParseSuperblock(b)
  }

  /** `Container::open`: the superblock mounted, and the choice made. */
  method OpenContainer(dev: Bytes) returns (r: Result<Superblock>, ghost choice: Choice)
    ensures Opens(dev, r, choice)
  {
    hide ParseSuperblock, Candidate, Verify;
    choice := Nothing;
    var probe := ReadExact(dev, 0, NX_DEFAULT_BLOCK_SIZE);
    if probe.Err? {
      return Err(probe.error), choice;
    }
    var block0 := ParseSuperblock(probe.value);
    if block0.Err? {
      return Err(block0.error), choice;
    }
    var sb := block0.value;
    var raw := ReadExact(dev, 0, sb.blockSize);
    if raw.Err? {
      return Err(raw.error), choice;
    }
    if sb.descBlocks >= 0x8000_0000 {
      return Err(Unsupported), choice;
    }
    var best, at := ScanDescriptors(dev, sb.blockSize, sb.descBase, sb.descBlocks % 0x8000_0000);
    ghost var slots := DescriptorSlots(dev, sb);
    choice := if best.Some? then SlotChoice(at) else Nothing;
    var zeroValid := VerifyObject(raw.value);
    if zeroValid && (best.None? || sb.xid > best.value.0) {
      best := Some((sb.xid, raw.value));
      choice := BlockZero;
    }
    if best.None? {
      return Err(Corrupt), choice;
    }
    r := ParseSuperblock(best.value.1);
  }

  // ---------- overwriting a slot ----------

  /** A block written over a slot other than the mounted one leaves the choice as it was. Whatever is
      mounted, an unmountable block does; over a mounted slot so does an older block, or one as old that
      lies further on; over a mounted block zero, which must be strictly newest, only an older one. */
  ghost predicate Harmless(slots: seq<Slot>, zero: Option<nat>, c: Choice, i: nat, blk: Slot)
    requires IsChoice(slots, zero, c)
  {
    var x := Candidate(blk);
    x.None? ||
    match c
    case SlotChoice(w) =>
      var was := Candidate(slots[w]).value;
      x.value < was || (x.value == was && i > w)
    case BlockZero => x.value < zero.value
    case Nothing => false
  }

  /** Overwriting a losing slot keeps the choice exactly when the new block is harmless, and makes that
      block the choice otherwise. */
  lemma LosingSlotOverwritten(slots: seq<Slot>, zero: Option<nat>, c: Choice, i: nat, blk: Slot)
    requires IsChoice(slots, zero, c) && i < |slots| && c != SlotChoice(i)
    ensures IsChoice(slots[i := blk], zero, c) <==> Harmless(slots, zero, c, i, blk)
    ensures !Harmless(slots, zero, c, i, blk) ==> IsChoice(slots[i := blk], zero, SlotChoice(i))
  {
    hide Candidate;
    if Harmless(slots, zero, c, i, blk) {
      ChoiceKept(slots, zero, c, i, blk);
    } else {
      SlotTakesOver(slots, zero, c, i, blk);
      if IsChoice(slots[i := blk], zero, c) {
        ChoiceIsUnique(slots[i := blk], zero, c, SlotChoice(i));
      }
    }
  }

  lemma ChoiceKept(slots: seq<Slot>, zero: Option<nat>, c: Choice, i: nat, blk: Slot)
    requires IsChoice(slots, zero, c) && i < |slots| && c != SlotChoice(i) && Harmless(slots, zero, c, i, blk)
    ensures IsChoice(slots[i := blk], zero, c)
  {
    hide Candidate;
    var now := slots[i := blk];
    forall j | 0 <= j < |slots|
      ensures now[j] == if j == i then blk else slots[j]
      ensures j != i ==> now[j] in slots
    {
    }
    if c.SlotChoice? {
      forall j | 0 <= j < |slots|
        ensures !Newer(Candidate(now[j]), Candidate(now[c.index]))
        ensures j < c.index ==> Newer(Candidate(now[c.index]), Candidate(now[j]))
      {
      }
      assert Wins(now, c.index);
    }
  }

  lemma SlotTakesOver(slots: seq<Slot>, zero: Option<nat>, c: Choice, i: nat, blk: Slot)
    requires IsChoice(slots, zero, c) && i < |slots| && c != SlotChoice(i) && !Harmless(slots, zero, c, i, blk)
    ensures IsChoice(slots[i := blk], zero, SlotChoice(i))
  {
    hide Candidate;
    var now := slots[i := blk];
    forall j | 0 <= j < |slots| && j != i
      ensures now[j] == slots[j]
      ensures !Newer(Candidate(now[j]), Candidate(now[i]))
      ensures j < i ==> Newer(Candidate(now[i]), Candidate(now[j]))
    {
      assert slots[j] in slots;
    }
    assert Wins(now, i);
  }

  /** A strictly newer mountable block becomes the choice wherever it is written. */
  lemma NewerSlotWins(slots: seq<Slot>, zero: Option<nat>, i: nat, blk: Slot)
    requires i < |slots| && Newer(Candidate(blk), zero)
    requires forall j :: 0 <= j < |slots| && j != i ==> Newer(Candidate(blk), Candidate(slots[j]))
    ensures IsChoice(slots[i := blk], zero, SlotChoice(i))
  {
    hide Candidate;
    var now := slots[i := blk];
    assert forall j :: 0 <= j < |slots| ==> now[j] == if j == i then blk else slots[j];
  }

  /** What is left to mount when slot `w` is gone. */
  ghost predicate Others(slots: seq<Slot>, w: nat, x: Option<nat>) {
    forall j :: 0 <= j < |slots| && j != w ==> Newer(x, Candidate(slots[j]))
  }

  /** Losing the mounted slot falls back to the next best: block zero exactly when it is strictly newer
      than every other slot, nothing exactly when nothing else may be mounted, and never a newer block. */
  lemma FallsBack(slots: seq<Slot>, zero: Option<nat>, w: nat, blk: Slot, c: Choice)
    requires IsChoice(slots, zero, SlotChoice(w)) && Candidate(blk).None?
    requires IsChoice(slots[w := blk], zero, c)
    ensures c == Nothing <==> zero.None? && forall j :: 0 <= j < |slots| && j != w ==> Candidate(slots[j]).None?
    ensures c == BlockZero <==> zero.Some? && Others(slots, w, zero)
    ensures match c
            case SlotChoice(i) => i < |slots| && i != w && !Newer(Candidate(slots[i]), Candidate(slots[w]))
            case BlockZero => zero.Some? && zero.value <= Candidate(slots[w]).value
            case Nothing => true
  {
    hide Candidate;
    var now := slots[w := blk];
    forall j | 0 <= j < |slots|
      ensures now[j] == (if j == w then blk else slots[j]) && now[j] in now
    {
      assert now[j] in now;
    }
    if zero.None? && forall j :: 0 <= j < |slots| && j != w ==> Candidate(slots[j]).None? {
      assert IsChoice(now, zero, Nothing);
      ChoiceIsUnique(now, zero, c, Nothing);
    }
    if zero.Some? && Others(slots, w, zero) {
      assert IsChoice(now, zero, BlockZero);
      ChoiceIsUnique(now, zero, c, BlockZero);
    }
  }

  // ---------- the writer's choice ----------

  /** The slot the writer edits (`discover`): the last one of greatest xid that is a superblock by type;
      it verifies no checksum. */
  function TypedXid(s: Slot): Option<nat> {
    if s.None? then None
    else
      match ParseObjHeader(s.value)
      case Err(_) => None
      case Ok(obj) => if BaseType(obj) == OBJECT_TYPE_NX_SUPERBLOCK then Some(obj.xid) else None
  }

  /** The scan of `discover` over `n` blocks, the count's flag bit not masked. A block outside the image
      panics, and so do finding none and choosing block zero. */
  method DiscoverLatest(img: Image, base: nat, n: nat) returns (r: Result<nat>)
    ensures r.Ok? ==> InImage(img.data, base, n) && IsLatest(Slots(img.data, BS, base, n), r.value) && base + r.value != 0
    ensures r.Err? ==> r.error == Panic
    ensures r.Err? && InImage(img.data, base, n) ==>
              var slots := Slots(img.data, BS, base, n);
              (forall s :: s in slots ==> TypedXid(s).None?) || (base == 0 && IsLatest(slots, 0))
  {
    hide TypedXid;
    var latest: Option<nat> := None;
    var bestXid := 0;
    ghost var slots := Slots(img.data, BS, base, n);
    for i := 0 to n
      invariant forall p: nat :: base <= p < base + i ==> BlockInImage(img.data, p)
      invariant latest.None? ==> bestXid == 0 && forall j :: 0 <= j < i ==> TypedXid(slots[j]).None?
      invariant latest.Some? ==> latest.value < i && IsLatest(slots[..i], latest.value) && TypedXid(slots[latest.value]) == Some(bestXid)
    {
      assert slots[..i + 1] == slots[..i] + [slots[i]];
      if !img.Has(base + i) {
        assert !BlockInImage(img.data, base + i);
        return Err(Panic);
      }
      var xid := TypedXid(SlotAt(img.data, BS, base + i));
      if xid.Some? && xid.value >= bestXid {
        latest, bestXid := Some(i), xid.value;
      }
    }
    assert slots[..n] == slots;
    if latest.None? || base + latest.value == 0 {
      return Err(Panic);
    }
    return Ok(latest.value);
  }

  predicate BlockInImage(data: Bytes, p: nat) {
    (p + 1) * BS <= |data|
  }

  ghost predicate InImage(data: Bytes, base: nat, n: nat) {
    forall p: nat :: base <= p < base + n ==> BlockInImage(data, p)
  }

  ghost predicate IsLatest(slots: seq<Slot>, i: nat) {
    i < |slots| && TypedXid(slots[i]).Some? &&
    forall j :: 0 <= j < |slots| ==>
      !Newer(TypedXid(slots[j]), TypedXid(slots[i])) && (i < j ==> Newer(TypedXid(slots[i]), TypedXid(slots[j])))
  }

  /** The writer edits the checkpoint the reader mounts exactly when its slot is checksum valid, no other
      mountable slot is as new, and block zero is not newer. */
  lemma WriterAgrees(slots: seq<Slot>, zero: Option<nat>, i: nat)
    requires IsLatest(slots, i)
    ensures IsChoice(slots, zero, SlotChoice(i)) <==>
            && Verify(slots[i].value) && !Newer(zero, Candidate(slots[i]))
            && forall j :: 0 <= j < |slots| && j != i ==> Newer(Candidate(slots[i]), Candidate(slots[j]))
  {
    hide Verify;
    assert forall j :: 0 <= j < |slots| && Candidate(slots[j]).Some? ==> Candidate(slots[j]) == TypedXid(slots[j]);
  }
}
