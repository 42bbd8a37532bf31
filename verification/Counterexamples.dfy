/** Inputs on which the code departs from what it is documented or expected to do. */
module Counterexamples {
  import opened Bytes
  import opened Checksum
  import opened BTree
  import opened BTreeTheory
  import opened NodeCodec
  import opened NodeWriter
  import opened NodeRoundTrip
  import opened Omap
  import opened OmapTheory
  import opened Records
  import opened Decmpfs
  import opened RsrcWriter
  import opened Checkpoint
  import opened Container
  import opened Sorting
  import opened Volume
  import opened EndToEnd
  import opened ReadBack
  import opened Witness
  import opened WriteFile

  // ---------- panics on damaged compressed files ----------

  /** A header that claims two bytes, and no data: reading the second one panics. */
  lemma ShortInlinePanics(z: Zlib, fork: Result<Bytes>)
    ensures CompressedSlice(z, Ok(DecmpfsHeader(TYPE_PLAIN_XATTR, 2)), fork, 1, 1) == Err(Panic)
  {
    hide DecmpfsHeader, ParseHeader;
    var x := DecmpfsHeader(TYPE_PLAIN_XATTR, 2);
    HeaderParses(TYPE_PLAIN_XATTR, 2, []);
    assert x + [] == x;
  }

  /** A fork whose one stored block is empty, for a file of two bytes: reading the second one panics. */
  lemma ShortForkPanics(z: Zlib)
    ensures RsrcSlice(z, Fork([[0xFF]]), 2, 1, 1) == Err(Panic)
    ensures CompressedSlice(z, Ok(DecmpfsHeader(TYPE_ZLIB_RSRC, 2)), Ok(Fork([[0xFF]])), 1, 1) == Err(Panic)
  {
    hide DecmpfsHeader, ParseHeader, Fork, TableBase, BlockAt;
    var ss: seq<Bytes> := [[0xFF]];
    var none := ss[..0];
    assert Joined(ss) == Joined(none) + ss[0];
    ForkOpens(ss, 2);
    StreamIsBlock(z, ss, 2, 0);
    assert ss[0][0] % 16 == 15 && ss[0][1..] == [];
    var x := DecmpfsHeader(TYPE_ZLIB_RSRC, 2);
    HeaderParses(TYPE_ZLIB_RSRC, 2, []);
    assert x + [] == x;
  }

  /** An attribute stored as a stream that claims 2^63 bytes: reading it panics before it reads anything. */
  lemma OversizedStreamPanics(v: OpenVolume, mt: Tree, recs: seq<Record>, id: nat, size: nat, streamId: nat, rest: Bytes)
    requires HoldsRecords(v, mt, recs) && id < P60 && streamId < U64
    requires SelectRecords(recs, id, APFS_TYPE_XATTR) == ForkAttributes(id, size, streamId, HUGE, rest)
    ensures XattrContent(v, id, XATTR_RESOURCE_FORK) == Err(Panic)
  {
    hide HoldsRecords, SelectRecords, XattrQuery, ForkAttributes, ExtentsQuery;
    AttributesReadBack(v, mt, recs, id, size, streamId, HUGE, rest);
  }

  const HUGE := 0x8000_0000_0000_0000

  /** The two attributes of file 5, its fork in stream 6. */
  function OversizedRecords(): seq<Record> {
    [BuildNamedXattr(5, XATTR_DECMPFS, 2, DecmpfsHeader(TYPE_ZLIB_RSRC, 0)),
     BuildNamedXattr(5, XATTR_RESOURCE_FORK, 1, LE(6, 8) + LE(HUGE, 8) + [])]
  }

  lemma OversizedShape()
    ensures |OversizedRecords()| == 2 && AllSortable(OversizedRecords())
    ensures forall r :: r in OversizedRecords() ==> |r.key| <= 64 && |r.val| <= 64
    ensures SelectRecords(OversizedRecords(), 5, APFS_TYPE_XATTR) == ForkAttributes(5, 0, 6, HUGE, [])
  {
    hide LE, Field, KeyHeader;
    var a, b := OversizedRecords()[0], OversizedRecords()[1];
    XattrKey(5, XATTR_DECMPFS, 2, DecmpfsHeader(TYPE_ZLIB_RSRC, 0));
    XattrKey(5, XATTR_RESOURCE_FORK, 1, LE(6, 8) + LE(HUGE, 8) + []);
    XattrSortable(a);
    XattrSortable(b);
    SelectPair(a, b, 5, APFS_TYPE_XATTR);
  }

  lemma XattrSortable(r: Record)
    requires |r.key| >= 16
    ensures Sortable(r)
  {
    hide Field;
  }

  /** A device on which reading an attribute panics. */
  method OversizedDevice(checked: bool) returns (v: OpenVolume)
    ensures v.load == LoadChecked(v.dev, BS, checked)
    ensures XattrContent(v, 5, XATTR_RESOURCE_FORK) == Err(Panic)
  {
    hide OversizedRecords, NodeWriter.Fits, HoldsRecords, XattrContent, SelectRecords, ForkAttributes, LoadChecked;
    OversizedShape();
    var recs := OversizedRecords();
    SameElements(Sort(recs), recs);
    assert |Sort(recs)| == |multiset(Sort(recs))| == |multiset(recs)| == |recs|;
    SmallFits(Sort(recs), ROOT_LEAF);
    v := Format(recs, [], 0, checked, 3);
    OversizedStreamPanics(v, MapTree(), recs, 5, 0, 6, []);
  }

  // ---------- checkpoints of equal age ----------

  /** A stamped superblock of this xid; `tag` tells two of them apart. */
  function NxBlock(xid: nat, tag: byte): (b: Bytes)
    ensures |b| == BS
  {
    Stamped(NxBody(xid, tag))
  }

  function NxBody(xid: nat, tag: byte): (b: Bytes)
    ensures |b| == BS
  {
    Zeros(16) + LE(xid, 8) + LE(OBJECT_TYPE_NX_SUPERBLOCK, 4) + [tag] + Zeros(BS - 29)
  }

  lemma NxBlockFields(xid: nat, tag: byte)
    requires xid < U64
    ensures Candidate(Some(NxBlock(xid, tag))) == Some(xid) && NxBlock(xid, tag)[28] == tag
  {
    hide Field, LE, Stamped, Verify;
    var b, s := NxBody(xid, tag), NxBlock(xid, tag);
    StampVerifies(b);
    assert b == Zeros(16) + LE(xid, 8) + (LE(OBJECT_TYPE_NX_SUPERBLOCK, 4) + [tag] + Zeros(BS - 29));
    Field8At(Zeros(16), xid, LE(OBJECT_TYPE_NX_SUPERBLOCK, 4) + [tag] + Zeros(BS - 29));
    var pre := Zeros(16) + LE(xid, 8);
    assert b == pre + LE(OBJECT_TYPE_NX_SUPERBLOCK, 4) + ([tag] + Zeros(BS - 29));
    Field4At(pre, OBJECT_TYPE_NX_SUPERBLOCK, [tag] + Zeros(BS - 29));
    StampedField(b, 16, 8);
    StampedField(b, 24, 4);
    assert s[8..][20] == b[8..][20] && b[28] == tag;
  }

  /** The mounted checkpoint changes when a different one of the same xid is written into an earlier slot. */
  lemma EqualXidInEarlierSlot()
    ensures NxBlock(5, 0) != NxBlock(5, 1)
    ensures var slots: seq<Slot> := [None, Some(NxBlock(5, 0))];
            && IsChoice(slots, None, SlotChoice(1))
            && IsChoice(slots[0 := Some(NxBlock(5, 1))], None, SlotChoice(0))
  {
    hide NxBlock, Candidate;
    NxBlockFields(5, 0);
    NxBlockFields(5, 1);
    EmptySlot();
    var slots: seq<Slot> := [None, Some(NxBlock(5, 0))];
    assert Wins(slots, 1);
    LosingSlotOverwritten(slots, None, SlotChoice(1), 0, Some(NxBlock(5, 1)));
  }

  /** Block zero loses to a slot of its own xid. */
  lemma EqualXidUnderBlockZero()
    ensures IsChoice([None], Some(5), BlockZero)
    ensures IsChoice([None][0 := Some(NxBlock(5, 1))], Some(5), SlotChoice(0))
  {
    hide NxBlock, Candidate;
    NxBlockFields(5, 1);
    EmptySlot();
    LosingSlotOverwritten([None], Some(5), BlockZero, 0, Some(NxBlock(5, 1)));
  }

  lemma EmptySlot()
    ensures Candidate(None) == None
  {
  }

  /** A newer block zero is mounted in place of the slot the writer edits, valid and unique as that slot is. */
  lemma WriterMissesBlockZero()
    ensures IsLatest([Some(NxBlock(5, 0))], 0) && Wins([Some(NxBlock(5, 0))], 0)
    ensures IsChoice([Some(NxBlock(5, 0))], Some(6), BlockZero)
  {
    hide NxBlock, Verify, ParseObjHeader;
    NxBlockFields(5, 0);
  }

  // ---------- a loose separator in an object map ----------

  function KeyBytesOf(oid: nat, xid: nat): (k: Bytes)
    ensures |k| == 16
  {
    LE(oid, 8) + LE(xid, 8)
  }

  /** Two versions of oid 5, each alone in its leaf, and separators at (5, 0) and (5, 2): the second one
      lies below its leaf's only key, (5, 9). */
  const EARLY := OmapEntry(5, 1, 0, BS, 7)
  const LATE := OmapEntry(5, 9, 0, BS, 8)

  function InnerRecords(): seq<Record> {
    [Record(KeyBytesOf(5, 0), LE(2, 8)), Record(KeyBytesOf(5, 2), LE(3, 8))]
  }

  function LooseBlocks(inner: Bytes, early: Bytes, late: Bytes): Loader {
    n => if n == 1 then Ok(inner) else if n == 2 then Ok(early) else if n == 3 then Ok(late) else Err(Io)
  }

  ghost function LooseTree(): Tree {
    Inner([KeyBytesOf(5, 0), KeyBytesOf(5, 2)], [Leaf([EncodeMapping(EARLY)]), Leaf([EncodeMapping(LATE)])])
  }

  lemma LeafDenotes(src: Source, b: Bytes, m: OmapEntry, flags: nat, keySize: nat, valSize: nat)
    requires flags == 2 && Serialized(b, [MappingRecord(m)], flags)
    ensures ParseNode(b).Ok? && Denotes(src, Present(ParseNode(b).value, keySize, valSize), Leaf([EncodeMapping(m)]))
  {
    hide Serialized, ParseNode, Reads, EncodeMapping, Denotes, Present;
    ReadsBack(b, [MappingRecord(m)], flags);
    PresentsRecords(ParseNode(b).value, [MappingRecord(m)], src, keySize, valSize);
    assert EntriesOf([MappingRecord(m)]) == [EncodeMapping(m)] by { MappingParts(m); }
  }

  lemma MappingParts(m: OmapEntry)
    ensures EntryOf(MappingRecord(m)) == EncodeMapping(m)
  {
  }

  lemma InnerRead(b: Bytes, keySize: nat, valSize: nat)
    requires Serialized(b, InnerRecords(), 1)
    ensures ParseNode(b).Ok? && !ParseNode(b).value.FixedKv()
    ensures var node := Present(ParseNode(b).value, keySize, valSize);
            && !node.leaf && node.block == b && |node.keys| == |node.vals| == 2
            && node.keys[0] == Ok(KeyBytesOf(5, 0)) && node.keys[1] == Ok(KeyBytesOf(5, 2))
            && ChildRef(ValueAt(node, 0)) == Ok(2) && ChildRef(ValueAt(node, 1)) == Ok(3)
  {
    hide Serialized, ParseNode, LE, Field, KeyBytesOf;
    ReadsBack(b, InnerRecords(), 1);
    var nb := ParseNode(b).value;
    assert ReadsAt(nb, 0, InnerRecords()[0]) && ReadsAt(nb, 1, InnerRecords()[1]);
    ReadRef(2);
    ReadRef(3);
  }

  lemma ReadRef(v: nat)
    requires v < U64
    ensures Field(LE(v, 8), 0, 8) == v
  {
    hide Field, LE;
    assert LE(v, 8) == [] + LE(v, 8) + [];
    Field8At([], v, []);
  }

  /** The three blocks spell out the tree. */
  lemma LooseDenotes(inner: Bytes, early: Bytes, late: Bytes)
    requires Serialized(inner, InnerRecords(), 1)
    requires Serialized(early, [MappingRecord(EARLY)], 2) && Serialized(late, [MappingRecord(LATE)], 2)
    ensures Maps(ObjectMap(LooseBlocks(inner, early, late), 1), LooseTree())
  {
    hide Serialized, ParseNode, ParseTreeInfo, Present, KeyBytesOf, EncodeMapping, Versions, Denotes, VariableInside, Levels, Flatten;
    var om := ObjectMap(LooseBlocks(inner, early, late), 1);
    InnerInfo(inner);
    var info := ParseTreeInfo(ParseNode(inner).value).value;
    var keySize, valSize := OrSixteen(info.keySize), OrSixteen(info.valSize);
    InnerRead(inner, keySize, valSize);
    var src, root := MapSource(om), MapRoot(om);
    LeafDenotes(src, early, EARLY, 2, keySize, valSize);
    LeafDenotes(src, late, LATE, 2, keySize, valSize);
    assert Child(src, root, 0) == Ok(Present(ParseNode(early).value, keySize, valSize));
    assert Child(src, root, 1) == Ok(Present(ParseNode(late).value, keySize, valSize));
    LooseVersions();
    PairDenotes(src, root, LooseTree());
  }

  /** A node over two leaves. */
  lemma PairDenotes(src: Source, node: Node, t: Tree)
    requires t.Inner? && |t.seps| == |t.kids| == 2 && t.kids[0].Leaf? && t.kids[1].Leaf?
    requires !node.leaf && |node.keys| == 2 && node.keys[0] == Ok(t.seps[0]) && node.keys[1] == Ok(t.seps[1])
    requires Child(src, node, 0).Ok? && Denotes(src, Child(src, node, 0).value, t.kids[0])
    requires Child(src, node, 1).Ok? && Denotes(src, Child(src, node, 1).value, t.kids[1])
    requires !FixedView(node)
    ensures Denotes(src, node, t) && VariableInside(src, node, t) && Levels(t, 2) && Levels(t, MAX_DEPTH + 1)
  {
    hide FixedView, Child;
    assert Levels(t.kids[0], 16) && Levels(t.kids[1], 16);
    assert VariableInside(src, Child(src, node, 0).value, t.kids[0]) && VariableInside(src, Child(src, node, 1).value, t.kids[1]);
  }

  lemma InnerInfo(b: Bytes)
    requires Serialized(b, InnerRecords(), 1)
    ensures ParseNode(b).Ok? && ParseTreeInfo(ParseNode(b).value).Ok?
  {
    hide Serialized, Field;
    ReadsBack(b, InnerRecords(), 1);
  }

  lemma LooseVersions()
    ensures Flatten(LooseTree()) == [EncodeMapping(EARLY), EncodeMapping(LATE)]
    ensures Versions(Flatten(LooseTree()))
    ensures Rank(OmapCmp(5, 3), KeyBytesOf(5, 0)) == 0 && Rank(OmapCmp(5, 3), KeyBytesOf(5, 2)) == 0
    ensures Rank(OmapCmp(5, 3), EncodeMapping(LATE).key) == 2 && Covers(EncodeMapping(EARLY), 5, 3)
  {
    hide LE, Field;
    MappingKey(5, 0);
    MappingKey(5, 1);
    MappingKey(5, 2);
    MappingKey(5, 9);
    FlattenPair(LooseTree(), [EncodeMapping(EARLY)], [EncodeMapping(LATE)]);
  }

  /** The map holds version 1 of oid 5, and a lookup at transaction 3 misses it. */
  method LooseMapMisses() returns (load: Loader)
    ensures Maps(ObjectMap(load, 1), LooseTree())
    ensures Lookup(ObjectMap(load, 1), 5, 3) == Err(OmapMiss(5, 3))
    ensures Latest(Flatten(LooseTree()), 5, 3) == Some(EncodeMapping(EARLY))
  {
    hide Serialized, Maps, Lookup, Versions, LE, OmapCmp, NodeWriter.Fits;
    SmallFits(InnerRecords(), 1);
    SmallFits([MappingRecord(EARLY)], 2);
    SmallFits([MappingRecord(LATE)], 2);
    var inner := Serialize(InnerRecords(), 1);
    var early := Serialize([MappingRecord(EARLY)], 2);
    var late := Serialize([MappingRecord(LATE)], 2);
    load := LooseBlocks(inner, early, late);
    LooseDenotes(inner, early, late);
    LooseVersions();
    LooseSeparatorMisses(ObjectMap(load, 1), KeyBytesOf(5, 0), KeyBytesOf(5, 2), [EncodeMapping(EARLY)], [EncodeMapping(LATE)], 5, 3);
  }
}
