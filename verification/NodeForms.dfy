/** Tree nodes byte for byte: what the writer leaves in a block, and how the reader finds records and
    mappings in one laid out field by field. */
module NodeForms {
  import opened Bytes
  import opened BTree
  import opened BTreeTheory
  import opened Checksum
  import opened Formats
  import opened NodeCodec
  import opened NodeRoundTrip
  import opened NodeWriter
  import opened Omap
  import opened OmapTheory

  // ---------- what the writer leaves ----------

  function KeyTotal(recs: seq<Record>): nat {
    if |recs| == 0 then 0 else |recs[0].key| + KeyTotal(recs[1..])
  }

  function ValTotal(recs: seq<Record>): nat {
    if |recs| == 0 then 0 else |recs[0].val| + ValTotal(recs[1..])
  }

  lemma {:induction false} Totals(recs: seq<Record>, r: Record)
    ensures KeyTotal(recs + [r]) == KeyTotal(recs) + |r.key| && ValTotal(recs + [r]) == ValTotal(recs) + |r.val|
  {
    if |recs| > 0 {
      assert (recs + [r])[1..] == recs[1..] + [r];
      Totals(recs[1..], r);
    }
  }

  lemma {:induction false} TotalsAre(recs: seq<Record>)
    ensures |KeyBytes(recs)| == KeyTotal(recs) && |ValBytes(recs)| == ValTotal(recs)
  {
    if |recs| > 0 {
      var n := |recs| - 1;
      TotalsAre(recs[..n]);
      Totals(recs[..n], recs[n]);
      assert recs[..n] + [recs[n]] == recs;
    }
  }

  /** `m` is the greatest of the lengths, or zero when there are none. */
  ghost predicate IsLongest(lens: seq<nat>, m: nat) {
    (forall i :: 0 <= i < |lens| ==> lens[i] <= m) && (m in lens || (m == 0 && |lens| == 0))
  }

  function KeyLens(recs: seq<Record>): (r: seq<nat>)
    ensures |r| == |recs|
  {
    seq(|recs|, i requires 0 <= i < |recs| => |recs[i].key|)
  }

  function ValLens(recs: seq<Record>): (r: seq<nat>)
    ensures |r| == |recs|
  {
    seq(|recs|, i requires 0 <= i < |recs| => |recs[i].val|)
  }

  lemma {:induction false} LongestAre(recs: seq<Record>)
    ensures IsLongest(KeyLens(recs), LongestKey(recs)) && IsLongest(ValLens(recs), LongestVal(recs))
  {
    if |recs| > 0 {
      var n := |recs| - 1;
      LongestAre(recs[..n]);
      assert KeyLens(recs) == KeyLens(recs[..n]) + [|recs[n].key|];
      assert ValLens(recs) == ValLens(recs[..n]) + [|recs[n].val|];
    }
  }

  /** A written node's header: the count; the table as long as it was, or grown to the next multiple of 64
      that holds eight bytes a record; and free space from the end of the keys to the start of the values. */
  lemma WrittenForm(was: Bytes, node: NodeImage, b: Bytes)
    requires |was| == BS && NodeWriter.Fits(was, node) && Written(was, LayoutOf(was, node), b)
    ensures |b| == 4096 && Field(b, 36, 4) == |node.records| && Field(b, 40, 2) == Field(was, 40, 2)
    ensures var n, t := |node.records|, Field(b, 42, 2);
            if 8 * n <= node.tableLen then t == node.tableLen else t % 64 == 0 && 8 * n <= t < 8 * n + 64
    ensures Field(b, 44, 2) == KeyTotal(node.records)
    ensures 56 + Field(b, 40, 2) + Field(b, 42, 2) + Field(b, 44, 2) + Field(b, 46, 2) + ValTotal(node.records) ==
            if node.isRoot then 4056 else 4096
    ensures b[48..56] == [0xFF, 0xFF, 0, 0, 0xFF, 0xFF, 0, 0]
  {
    hide Field, LE, KeyBytes, ValBytes, DataWritten, TailWritten, FromLE, LongestKey, LongestVal;
    HeaderFields(was, LayoutOf(was, node), b);
    LayoutFields(was, node);
    TotalsAre(node.records);
    TableIs(node);
  }

  ghost predicate ZeroBetween(b: Bytes, lo: nat, hi: int) {
    hi <= |b| && forall k :: lo <= k < hi ==> b[k] == 0
  }

  /** The table's unused entries and the free space are zeros. */
  lemma WrittenZeros(was: Bytes, node: NodeImage, b: Bytes)
    requires |was| == BS && NodeWriter.Fits(was, node) && Written(was, LayoutOf(was, node), b)
    ensures |b| == 4096
    ensures var table := 56 + Field(was, 40, 2);
            && ZeroBetween(b, table + 8 * |node.records|, table + Field(b, 42, 2) / 8 * 8)
            && ZeroBetween(b, table + Field(b, 42, 2) + KeyTotal(node.records),
                           (if node.isRoot then 4056 else 4096) - ValTotal(node.records))
  {
    hide Field, KeyTotal, ValTotal, ZeroBetween, Written, LayoutOf, NodeWriter.Fits, TableLen, KeyBytes, ValBytes;
    TotalsAre(node.records);
    TableField(was, node, b);
    LayoutNumbers(was, node);
    SpareAndGap(was, LayoutOf(was, node), b);
  }

  lemma LayoutNumbers(was: Bytes, node: NodeImage)
    requires |was| == BS && NodeWriter.Fits(was, node)
    ensures var l := LayoutOf(was, node);
            && l.start == 56 + Field(was, 40, 2) && |l.toc| == 8 * |node.records|
            && l.start + |l.toc| + |l.spare| == l.start + TableLen(node) / 8 * 8
            && l.keyArea == l.start + TableLen(node) && |l.keys| == |KeyBytes(node.records)|
            && l.keyArea + |l.keys| + |l.gap| == (if node.isRoot then 4056 else 4096) - |ValBytes(node.records)|
            && l.spare == Zeros(|l.spare|) && l.gap == Zeros(|l.gap|)
  {
    hide Field, LE, KeyBytes, ValBytes, LongestKey, LongestVal;
    TableCapacity(node);
  }

  lemma SpareAndGap(was: Bytes, l: Layout, b: Bytes)
    requires Written(was, l, b) && l.spare == Zeros(|l.spare|) && l.gap == Zeros(|l.gap|)
    ensures |b| == 4096 && ZeroBetween(b, l.start + |l.toc|, l.start + |l.toc| + |l.spare|)
    ensures ZeroBetween(b, l.keyArea + |l.keys|, l.keyArea + |l.keys| + |l.gap|)
  {
    hide HeaderWritten, TailWritten, ZeroBetween, Verify;
    ZerosBetween(b, l.start + |l.toc|, |l.spare|);
    ZerosBetween(b, l.keyArea + |l.keys|, |l.gap|);
  }

  lemma ZerosBetween(b: Bytes, at: nat, n: nat)
    requires at + n <= |b| && b[at..at + n] == Zeros(n)
    ensures ZeroBetween(b, at, at + n)
  {
    forall k | at <= k < at + n
      ensures b[k] == 0
    {
      assert b[at..at + n][k - at] == b[k];
    }
  }

  lemma TableField(was: Bytes, node: NodeImage, b: Bytes)
    requires |was| == BS && NodeWriter.Fits(was, node) && Written(was, LayoutOf(was, node), b)
    ensures |b| == BS && Field(b, 42, 2) == TableLen(node)
  {
    hide Field, LE, KeyBytes, ValBytes, DataWritten, TailWritten, FromLE;
    HeaderFields(was, LayoutOf(was, node), b);
    LayoutFields(was, node);
  }

  lemma TableIs(node: NodeImage)
    ensures var n, t := |node.records|, TableLen(node);
            if 8 * n <= node.tableLen then t == node.tableLen else t % 64 == 0 && 8 * n <= t < 8 * n + 64
  {
  }

  /** And a root's statistics: the longest key and value, and the count. */
  lemma WrittenStats(was: Bytes, node: NodeImage, b: Bytes)
    requires |was| == BS && NodeWriter.Fits(was, node) && Written(was, LayoutOf(was, node), b) && node.isRoot
    ensures |b| == 4096
    ensures IsLongest(KeyLens(node.records), Field(b, 4072, 4))
    ensures IsLongest(ValLens(node.records), Field(b, 4076, 4))
    ensures Field(b, 4080, 8) == |node.records|
  {
    hide Field, LE, HeaderWritten, DataWritten, Stats, LongestKey, LongestVal, IsLongest, KeyLens, ValLens, KeyBytes, ValBytes;
    assert b[4072..4088] == Stats(node.records);
    LongestAre(node.records);
    LongestFit(node.records);
    TableCapacity(node);
    StatsFields(b, node.records);
  }

  lemma StatsFields(b: Bytes, recs: seq<Record>)
    requires |b| == 4096 && b[4072..4088] == Stats(recs)
    requires LongestKey(recs) < U32 && LongestVal(recs) < U32 && |recs| < U32
    ensures Field(b, 4072, 4) == LongestKey(recs) && Field(b, 4076, 4) == LongestVal(recs) && Field(b, 4080, 8) == |recs|
  {
    hide LongestKey, LongestVal;
    ThreeStats(b, LongestKey(recs), LongestVal(recs), |recs|);
  }

  lemma ThreeStats(b: Bytes, x: nat, y: nat, n: nat)
    requires |b| == 4096 && b[4072..4088] == LE(x, 4) + LE(y, 4) + LE(n, 8) && x < U32 && y < U32 && n < U32
    ensures Field(b, 4072, 4) == x && Field(b, 4076, 4) == y && Field(b, 4080, 8) == n
  {
    hide Field, LE, FromLE;
    var s := LE(x, 4) + LE(y, 4) + LE(n, 8);
    assert s[0..4] == LE(x, 4) && s[4..8] == LE(y, 4) && s[8..16] == LE(n, 8);
    StatAt(b, s, 0, 4, LE(x, 4));
    StatAt(b, s, 4, 4, LE(y, 4));
    StatAt(b, s, 8, 8, LE(n, 8));
    LE4(x);
    LE4(y);
    LE8(n);
  }

  lemma StatAt(b: Bytes, s: Bytes, off: nat, n: nat, w: Bytes)
    requires |b| == 4096 && |s| == 16 && b[4072..4088] == s && off + n <= 16 && s[off..off + n] == w
    ensures Field(b, 4072 + off, n) == FromLE(w)
  {
    hide Field, FromLE;
    SubSlice(b, 4072, 4088, off, off + n);
    FieldIs(b, 4072 + off, n, w);
  }

  lemma {:induction false} LongestFit(recs: seq<Record>)
    ensures LongestKey(recs) <= |KeyBytes(recs)| && LongestVal(recs) <= |ValBytes(recs)|
  {
    if |recs| > 0 {
      LongestFit(recs[..|recs| - 1]);
    }
  }

  // ---------- how the reader finds records ----------

  /** A node laid out in order is read field for field. */
  lemma NodeParses(x: NodePhys, rest: Bytes)
    requires x.Typed()
    ensures ParseNode(x.Bytes() + rest) ==
            if x.obj.otype % 0x1_0000 != 2 && x.obj.otype % 0x1_0000 != 3 then Err(Parse)
            else if x.nkeys > 4096 then Err(Corrupt)
            else Ok(NodeBlock(x.flags, x.nkeys, x.tableOff, x.tableLen, x.Bytes() + rest))
  {
    hide Field;
    NodeReads(x, rest);
  }

  /** Record `i` of a node of fixed-size records: two 16-bit offsets in the table, a key that far into the
      key area, and a value that far before the end of the block, or of the tree information in a root. */
  ghost predicate FixedAt(x: NodePhys, b: Bytes, i: nat, key: Bytes, val: Bytes) {
    var at, keys := 56 + x.tableOff + 4 * i, 56 + x.tableOff + x.tableLen;
    var end := if x.flags % 2 == 1 then |b| - 40 else |b|;
    && at + 4 <= |b|
    && var koff, voff := Field(b, at, 2), Field(b, at + 2, 2);
    && keys + koff + |key| <= |b| && b[keys + koff..keys + koff + |key|] == key
    && |val| <= voff <= end && voff != 0xFFFF && b[end - voff..end - voff + |val|] == val
  }

  lemma FixedRecordReads(x: NodePhys, rest: Bytes, i: nat, key: Bytes, val: Bytes)
    requires x.Typed() && x.obj.otype % 0x1_0000 in {2, 3} && x.nkeys <= 4096 && i < x.nkeys
    requires x.flags / 4 % 2 == 1 && x.flags / 2 % 2 == 1 && FixedAt(x, x.Bytes() + rest, i, key, val)
    ensures ParseNode(x.Bytes() + rest).Ok?
    ensures var nb := ParseNode(x.Bytes() + rest).value;
            && nb.IsLeaf() && nb.FixedKv() && nb.Key(i, |key|) == Ok(key)
            && forall n: nat :: nb.Value(i, |val|, n) == Ok(Some(val))
  {
    hide Field, ParseNode;
    NodeParses(x, rest);
    var b := x.Bytes() + rest;
    var nb := ParseNode(b).value;
    var at := 56 + x.tableOff + 4 * i;
    assert nb.TocEntry(i) == Ok(TocFields(Field(b, at, 2), None, Field(b, at + 2, 2), None));
  }

  /** A ghost record's value offset is all ones. */
  lemma GhostReads(x: NodePhys, rest: Bytes, i: nat)
    requires x.Typed() && x.obj.otype % 0x1_0000 in {2, 3} && x.nkeys <= 4096 && i < x.nkeys && x.flags / 4 % 2 == 1
    requires var at := 56 + x.tableOff + 4 * i;
             at + 4 <= |x.Bytes() + rest| && Field(x.Bytes() + rest, at + 2, 2) == 0xFFFF
    ensures ParseNode(x.Bytes() + rest).Ok?
    ensures forall n: nat, m: nat :: ParseNode(x.Bytes() + rest).value.Value(i, n, m) == Ok(None)
  {
    hide Field, ParseNode;
    NodeParses(x, rest);
  }

  // ---------- an object map of one fixed-size leaf ----------

  /** A root leaf of fixed-size records that holds these mappings in order; the tree information may leave
      the sizes, 16 and 16, unrecorded. */
  ghost predicate MapBlock(b: Bytes, x: NodePhys, middle: Bytes, t: TreePhys, ms: seq<OmapEntry>) {
    && x.Typed() && t.Typed() && x.obj.otype % 0x1_0000 in {2, 3} && x.flags % 8 == 7 && x.nkeys == |ms| <= 4096
    && b == x.Bytes() + (middle + t.Bytes()) && t.keySize in {0, 16} && t.valSize in {0, 16}
    && forall i :: 0 <= i < |ms| ==> FixedAt(x, b, i, EncodeMapping(ms[i]).key, EncodeMapping(ms[i]).val.value)
  }

  ghost function Mappings(ms: seq<OmapEntry>): (es: seq<Entry>)
    ensures |es| == |ms|
  {
    seq(|ms|, i requires 0 <= i < |ms| => EncodeMapping(ms[i]))
  }

  lemma MapInfo(b: Bytes, x: NodePhys, middle: Bytes, t: TreePhys, ms: seq<OmapEntry>)
    requires MapBlock(b, x, middle, t, ms)
    ensures ParseNode(b) == Ok(NodeBlock(x.flags, x.nkeys, x.tableOff, x.tableLen, b))
    ensures ParseTreeInfo(ParseNode(b).value) == Ok(TreeInfo(t.keySize, t.valSize, t.keyCount))
  {
    hide Field, FixedAt, EncodeMapping;
    NodeParses(x, middle + t.Bytes());
    TreeReads(x.Bytes() + middle, t);
    assert b == (x.Bytes() + middle) + t.Bytes();
  }

  /** Such a block is the map of its mappings, so lookups in it find the latest of them. */
  lemma FixedLeafMaps(load: Loader, at: nat, b: Bytes, x: NodePhys, middle: Bytes, t: TreePhys, ms: seq<OmapEntry>)
    requires load(at) == Ok(b) && MapBlock(b, x, middle, t, ms) && Versions(Mappings(ms))
    ensures Maps(ObjectMap(load, at), Leaf(Mappings(ms))) && Navigable(Leaf(Mappings(ms)))
    ensures forall oid: nat, xid: nat :: Lookup(ObjectMap(load, at), oid, xid) == Resolve(Mappings(ms), oid, xid)
  {
    hide Lookup, Resolve, MapBlock, Versions, FixedAt, EncodeMapping;
    var om, tree := ObjectMap(load, at), Leaf(Mappings(ms));
    MapInfo(b, x, middle, t, ms);
    LeafIsDenoted(om, b, x, middle, t, ms);
    LeafIsNavigable(Mappings(ms));
    assert Flatten(tree) == Mappings(ms);
    assert Spells(om, tree) && KeysSized(om, tree);
    forall oid: nat, xid: nat
      ensures Lookup(om, oid, xid) == Resolve(Mappings(ms), oid, xid)
    {
      LookupRefines(om, tree, oid, xid);
    }
  }

  /** Mapping `i` is the latest of its oid at `xid`. */
  ghost predicate IsLatestMapping(ms: seq<OmapEntry>, i: nat, oid: nat, xid: nat) {
    && i < |ms| && ms[i].oid == oid && ms[i].xid <= xid
    && forall j :: i < j < |ms| ==> ms[j].oid != oid || ms[j].xid > xid
  }

  lemma {:induction false} LatestMappingIs(ms: seq<OmapEntry>, i: nat, oid: nat, xid: nat)
    requires IsLatestMapping(ms, i, oid, xid) && forall m :: m in ms ==> m.oid < U64 && m.xid < U64
    ensures Latest(Mappings(ms), oid, xid) == Some(EncodeMapping(ms[i]))
  {
    hide EncodeMapping;
    var n := |ms| - 1;
    assert ms[n] in ms;
    CoversIs(ms[n], oid, xid);
    if i < n {
      assert forall m :: m in ms[..n] ==> m in ms;
      LatestMappingIs(ms[..n], i, oid, xid);
      assert Mappings(ms)[..n] == Mappings(ms[..n]);
    }
  }

  lemma CoversIs(m: OmapEntry, oid: nat, xid: nat)
    requires m.oid < U64 && m.xid < U64
    ensures Covers(EncodeMapping(m), oid, xid) <==> m.oid == oid && m.xid <= xid
  {
    hide Field, LE;
    MappingKey(m.oid, m.xid);
  }

  /** Loading an object through such a map: its latest mapping marked deleted (flag 1) is a miss, one of an
      encrypted object (flag 16) is an error, and any other leads to its block. */
  lemma MappedObjectLoads(load: Loader, at: nat, b: Bytes, x: NodePhys, middle: Bytes, t: TreePhys, ms: seq<OmapEntry>,
                          i: nat, oid: nat, xid: nat)
    requires load(at) == Ok(b) && MapBlock(b, x, middle, t, ms) && Versions(Mappings(ms))
    requires forall m :: m in ms ==> m.oid < U64 && m.xid < U64 && m.flags < U32 && m.size < U32 && m.paddr < U64
    requires IsLatestMapping(ms, i, oid, xid)
    ensures LoadVirtual(ObjectMap(load, at), oid, xid) ==
            if ms[i].flags % 2 == 1 then Err(OmapMiss(oid, xid))
            else if ms[i].flags % 0x20 >= 0x10 then Err(Encrypted)
            else load(ms[i].paddr)
  {
    hide Lookup, MapBlock, Versions, EncodeMapping, DecodeMapping, Latest;
    FixedLeafMaps(load, at, b, x, middle, t, ms);
    LatestMappingIs(ms, i, oid, xid);
    assert ms[i] in ms;
    MappingRoundTrip(ms[i], xid);
    EncryptedFlag(ms[i].flags);
  }

  lemma EncryptedFlag(flags: nat)
    ensures flags / 16 % 2 == 1 <==> flags % 0x20 >= 0x10
  {
    assert flags % 0x20 == 0x10 * (flags / 0x10 % 2) + flags % 0x10;
  }

  lemma LeafIsDenoted(om: ObjectMap, b: Bytes, x: NodePhys, middle: Bytes, t: TreePhys, ms: seq<OmapEntry>)
    requires om.load(om.treeOid) == Ok(b) && MapBlock(b, x, middle, t, ms)
    ensures ParseNode(b).Ok? && ParseTreeInfo(ParseNode(b).value).Ok?
    ensures Denotes(MapSource(om), MapRoot(om), Leaf(Mappings(ms)))
  {
    hide ParseNode, ParseTreeInfo, Field, FixedAt, EncodeMapping;
    MapInfo(b, x, middle, t, ms);
    var root := MapRoot(om);
    forall i | 0 <= i < |ms|
      ensures root.keys[i] == Ok(EncodeMapping(ms[i]).key) && root.vals[i] == Ok(EncodeMapping(ms[i]).val)
    {
      var e := EncodeMapping(ms[i]);
      MappingSizes(ms[i]);
      FixedRecordReads(x, middle + t.Bytes(), i, e.key, e.val.value);
    }
  }

  lemma MappingSizes(m: OmapEntry)
    ensures |EncodeMapping(m).key| == 16 && EncodeMapping(m).val.Some? && |EncodeMapping(m).val.value| == 16
  {
  }

  lemma LeafIsNavigable(es: seq<Entry>)
    requires Versions(es)
    ensures Navigable(Leaf(es))
  {
  }
}
