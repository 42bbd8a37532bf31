/** What the writer's node printer puts in a block, both node parsers read back. */
module NodeRoundTrip {
  import opened Bytes
  import opened NodeCodec
  import opened NodeWriter

  // ---------- the writer's own parser ----------

  /** Entry `i` of a node with variable-size keys and values; the slices panic when out of range. */
  function RecordAt(b: Bytes, start: nat, keyArea: nat, valEnd: nat, i: nat): Result<Record> {
    var e := start + i * 8;
    if e + 8 > |b| then Err(Panic)
    else
      var koff, klen := Field(b, e, 2), Field(b, e + 2, 2);
      var voff, vlen := Field(b, e + 4, 2), Field(b, e + 6, 2);
      if keyArea + koff + klen > |b| || voff > valEnd || valEnd - voff + vlen > |b| then Err(Panic)
      else Ok(Record(b[keyArea + koff..keyArea + koff + klen], b[valEnd - voff..valEnd - voff + vlen]))
  }

  type EntryReader = nat -> Result<Record>

  function Entries(b: Bytes, start: nat, keyArea: nat, valEnd: nat): EntryReader {
    (i: nat) => RecordAt(b, start, keyArea, valEnd, i)
  }

  function RecordsFrom(at: EntryReader, i: nat, n: nat): Result<seq<Record>>
    requires i <= n
    decreases n - i
  {
    if i == n then Ok([])
    else
      var rec :- at(i);
      var rest :- RecordsFrom(at, i + 1, n);
      Ok([rec] + rest)
  }

  function ParsedImage(b: Bytes, paddr: nat): Result<NodeImage>
    requires |b| == BS
  {
    var flags, tableOff, tableLen := Field(b, 32, 2), Field(b, 40, 2), Field(b, 42, 2);
    if flags / 4 % 2 != 0 then Err(Panic)
    else
      var isRoot := flags % 2 == 1;
      var recs :- RecordsFrom(Entries(b, 56 + tableOff, 56 + tableOff + tableLen, ValEnd(isRoot)), 0, Field(b, 36, 4));
      Ok(NodeImage(paddr, recs, isRoot, tableLen))
  }

  method ParseNodeImage(img: Image, paddr: nat) returns (r: Result<NodeImage>)
    requires img.Has(paddr)
    ensures r == ParsedImage(img.Block(paddr), paddr)
  {
    r := ParseBlock(img.Block(paddr), paddr);
  }

  method ParseBlock(b: Bytes, paddr: nat) returns (r: Result<NodeImage>)
    requires |b| == BS
    ensures r == ParsedImage(b, paddr)
  {
    hide Field, RecordsFrom, RecordAt;
    var flags, nkeys := Field(b, 32, 2), Field(b, 36, 4);
    var tableOff, tableLen := Field(b, 40, 2), Field(b, 42, 2);
    if flags / 4 % 2 != 0 {
      return Err(Panic);
    }
    var isRoot := flags % 2 == 1;
    var start := 56 + tableOff;
    var records :- ReadRecords(Entries(b, start, start + tableLen, ValEnd(isRoot)), nkeys);
    return Ok(NodeImage(paddr, records, isRoot, tableLen));
  }

  method ReadRecords(at: EntryReader, n: nat) returns (r: Result<seq<Record>>)
    ensures r == RecordsFrom(at, 0, n)
  {
    var records: seq<Record> := [];
    NoPrefix(RecordsFrom(at, 0, n));
    for i := 0 to n
      invariant RecordsFrom(at, 0, n) == Prefixed(records, RecordsFrom(at, i, n))
    {
      var rec :- at(i);
      ghost var rest := RecordsFrom(at, i + 1, n);
      assert rest.Ok? ==> records + ([rec] + rest.value) == (records + [rec]) + rest.value;
      records := records + [rec];
    }
    assert records + [] == records;
    return Ok(records);
  }

  function Prefixed(a: seq<Record>, r: Result<seq<Record>>): Result<seq<Record>> {
    match r
    case Ok(b) => Ok(a + b)
    case Err(e) => Err(e)
  }

  lemma NoPrefix(r: Result<seq<Record>>)
    ensures Prefixed([], r) == r
  {
    if r.Ok? {
      assert [] + r.value == r.value;
    }
  }

  // ---------- where record i lies ----------

  lemma {:induction false} TocAt(recs: seq<Record>, i: nat)
    requires i < |recs|
    ensures TocBytes(recs)[8 * i..8 * i + 8] ==
            TocFieldsOf(|KeyBytes(recs[..i])|, |recs[i].key|, |ValBytes(recs[..i + 1])|, |recs[i].val|)
  {
    var n := |recs| - 1;
    if i < n {
      TocAt(recs[..n], i);
      assert recs[..n][..i] == recs[..i] && recs[..n][..i + 1] == recs[..i + 1];
      assert TocBytes(recs)[8 * i..8 * i + 8] == TocBytes(recs[..n])[8 * i..8 * i + 8];
    } else {
      assert recs[..i + 1] == recs;
    }
  }

  lemma {:induction false} KeyAt(recs: seq<Record>, i: nat)
    requires i < |recs|
    ensures var off := |KeyBytes(recs[..i])|;
            off + |recs[i].key| <= |KeyBytes(recs)| && KeyBytes(recs)[off..off + |recs[i].key|] == recs[i].key
  {
    var n := |recs| - 1;
    if i < n {
      KeyAt(recs[..n], i);
      assert recs[..n][..i] == recs[..i];
      var off := |KeyBytes(recs[..i])|;
      assert KeyBytes(recs)[off..off + |recs[i].key|] == KeyBytes(recs[..n])[off..off + |recs[i].key|];
    }
  }

  lemma {:induction false} ValAt(recs: seq<Record>, i: nat)
    requires i < |recs|
    ensures var off := |ValBytes(recs[..i + 1])|;
            |recs[i].val| <= off <= |ValBytes(recs)| &&
            ValBytes(recs)[|ValBytes(recs)| - off..|ValBytes(recs)| - off + |recs[i].val|] == recs[i].val
  {
    var n := |recs| - 1;
    if i < n {
      ValAt(recs[..n], i);
      assert recs[..n][..i + 1] == recs[..i + 1];
      var off, len := |ValBytes(recs[..i + 1])|, |recs[i].val|;
      var at := |ValBytes(recs[..n])| - off;
      assert ValBytes(recs) == recs[n].val + ValBytes(recs[..n]);
      assert ValBytes(recs)[|recs[n].val| + at..|recs[n].val| + at + len] == ValBytes(recs[..n])[at..at + len];
    } else {
      assert recs[..i + 1] == recs;
      assert ValBytes(recs)[..|recs[n].val|] == recs[n].val;
    }
  }

  /** The four fields of a table entry, cut out of the block. */
  lemma EntryFields(b: Bytes, at: nat, e: Bytes, k: Bytes, kl: Bytes, v: Bytes, vl: Bytes)
    requires |k| == |kl| == |v| == |vl| == 2 && e == k + kl + v + vl
    requires at + 8 <= |b| && b[at..at + 8] == e
    ensures b[at..at + 2] == k && b[at + 2..at + 4] == kl && b[at + 4..at + 6] == v && b[at + 6..at + 8] == vl
  {
    SubSlice(b, at, at + 8, 0, 2);
    SubSlice(b, at, at + 8, 2, 4);
    SubSlice(b, at, at + 8, 4, 6);
    SubSlice(b, at, at + 8, 6, 8);
    assert e[0..2] == k && e[2..4] == kl && e[4..6] == v && e[6..8] == vl;
  }

  lemma ShortField(b: Bytes, at: nat, v: nat)
    requires v < U16 && at + 2 <= |b| && b[at..at + 2] == LE(v, 2)
    ensures Field(b, at, 2) == v
  {
    LE2(v);
    FieldIs(b, at, 2, LE(v, 2));
  }

  /** Entry `i` of the table and the bytes it points at are this record. */
  ghost predicate EntryHolds(b: Bytes, start: nat, keyArea: nat, valEnd: nat, i: nat, rec: Record) {
    var e := start + i * 8;
    e + 8 <= |b| &&
    var koff, voff := Field(b, e, 2), Field(b, e + 4, 2);
    && Field(b, e + 2, 2) == |rec.key| && Field(b, e + 6, 2) == |rec.val|
    && keyArea + koff + |rec.key| <= |b| && b[keyArea + koff..keyArea + koff + |rec.key|] == rec.key
    && voff <= valEnd && valEnd - voff + |rec.val| <= |b| && b[valEnd - voff..valEnd - voff + |rec.val|] == rec.val
    && voff < BTOFF_INVALID
  }

  lemma EntryDecodes(b: Bytes, at: nat, koff: nat, klen: nat, voff: nat, vlen: nat)
    requires koff < U16 && klen < U16 && voff < U16 && vlen < U16
    requires at + 8 <= |b| && b[at..at + 8] == TocFieldsOf(koff, klen, voff, vlen)
    ensures Field(b, at, 2) == koff && Field(b, at + 2, 2) == klen
    ensures Field(b, at + 4, 2) == voff && Field(b, at + 6, 2) == vlen
  {
    EntryFields(b, at, b[at..at + 8], LE(koff, 2), LE(klen, 2), LE(voff, 2), LE(vlen, 2));
    ShortField(b, at, koff);
    ShortField(b, at + 2, klen);
    ShortField(b, at + 4, voff);
    ShortField(b, at + 6, vlen);
  }

  /** The block holds the layout's table, keys and values where the layout says. */
  ghost predicate PartsHeld(l: Layout, b: Bytes) {
    && |b| == BS && l.Sound()
    && b[l.start..l.start + |l.toc|] == l.toc
    && b[l.keyArea..l.keyArea + |l.keys|] == l.keys
    && b[l.valEnd - |l.vals|..l.valEnd] == l.vals
  }

  lemma PartsOf(was: Bytes, l: Layout, b: Bytes)
    requires Written(was, l, b)
    ensures PartsHeld(l, b)
  {
  }

  /** A part of a part of the block is part of the block. */
  lemma PartOf(b: Bytes, base: nat, end: nat, part: Bytes, off: nat, w: Bytes, at: nat)
    requires base + |part| == end <= |b| && b[base..end] == part && at == base + off
    requires off + |w| <= |part| && part[off..off + |w|] == w
    ensures at + |w| <= |b| && b[at..at + |w|] == w
  {
    SubSlice(b, base, base + |part|, off, off + |w|);
  }

  lemma EntryFromParts(b: Bytes, l: Layout, i: nat, koff: nat, voff: nat, rec: Record)
    requires PartsHeld(l, b)
    requires 8 * i + 8 <= |l.toc| && l.toc[8 * i..8 * i + 8] == TocFieldsOf(koff, |rec.key|, voff, |rec.val|)
    requires koff + |rec.key| <= |l.keys| && l.keys[koff..koff + |rec.key|] == rec.key
    requires |rec.val| <= voff <= |l.vals|
    requires l.vals[|l.vals| - voff..|l.vals| - voff + |rec.val|] == rec.val
    ensures EntryHolds(b, l.start, l.keyArea, l.valEnd, i, rec)
  {
    hide Field, TocFieldsOf, EntryHolds;
    var entry := TocFieldsOf(koff, |rec.key|, voff, |rec.val|);
    PartOf(b, l.start, l.start + |l.toc|, l.toc, 8 * i, entry, l.start + i * 8);
    PartOf(b, l.keyArea, l.keyArea + |l.keys|, l.keys, koff, rec.key, l.keyArea + koff);
    PartOf(b, l.valEnd - |l.vals|, l.valEnd, l.vals, |l.vals| - voff, rec.val, l.valEnd - voff);
    EntryFromFields(b, l.start, l.keyArea, l.valEnd, i, koff, voff, rec);
  }

  lemma EntryFromFields(b: Bytes, start: nat, keyArea: nat, valEnd: nat, i: nat, koff: nat, voff: nat, rec: Record)
    requires |b| == BS && start + i * 8 + 8 <= BS
    requires b[start + i * 8..start + i * 8 + 8] == TocFieldsOf(koff, |rec.key|, voff, |rec.val|)
    requires keyArea + koff + |rec.key| <= BS && b[keyArea + koff..keyArea + koff + |rec.key|] == rec.key
    requires |rec.val| <= voff <= valEnd <= BS && b[valEnd - voff..valEnd - voff + |rec.val|] == rec.val
    ensures EntryHolds(b, start, keyArea, valEnd, i, rec)
  {
    hide Field, TocFieldsOf;
    EntryDecodes(b, start + i * 8, koff, |rec.key|, voff, |rec.val|);
  }

  /** Where record `i` lies: its table entry, its key and its value. */
  lemma Offsets(recs: seq<Record>, i: nat) returns (koff: nat, voff: nat)
    requires i < |recs|
    ensures 8 * i + 8 <= |TocBytes(recs)|
    ensures TocBytes(recs)[8 * i..8 * i + 8] == TocFieldsOf(koff, |recs[i].key|, voff, |recs[i].val|)
    ensures koff + |recs[i].key| <= |KeyBytes(recs)| && KeyBytes(recs)[koff..koff + |recs[i].key|] == recs[i].key
    ensures |recs[i].val| <= voff <= |ValBytes(recs)|
    ensures ValBytes(recs)[|ValBytes(recs)| - voff..|ValBytes(recs)| - voff + |recs[i].val|] == recs[i].val
  {
    koff, voff := |KeyBytes(recs[..i])|, |ValBytes(recs[..i + 1])|;
    TocAt(recs, i);
    KeyAt(recs, i);
    ValAt(recs, i);
  }

  /** In a written block, every entry of the table holds its record. */
  lemma AllEntries(l: Layout, recs: seq<Record>, b: Bytes)
    requires PartsHeld(l, b) && l.toc == TocBytes(recs) && l.keys == KeyBytes(recs) && l.vals == ValBytes(recs)
    ensures forall i :: 0 <= i < |recs| ==> EntryHolds(b, l.start, l.keyArea, l.valEnd, i, recs[i])
  {
    forall i | 0 <= i < |recs|
      ensures EntryHolds(b, l.start, l.keyArea, l.valEnd, i, recs[i])
    {
      OneEntry(l, recs, b, i);
    }
  }

  lemma LayoutOffsets(l: Layout, recs: seq<Record>, i: nat) returns (koff: nat, voff: nat)
    requires i < |recs| && l.toc == TocBytes(recs) && l.keys == KeyBytes(recs) && l.vals == ValBytes(recs)
    ensures 8 * i + 8 <= |l.toc| && l.toc[8 * i..8 * i + 8] == TocFieldsOf(koff, |recs[i].key|, voff, |recs[i].val|)
    ensures koff + |recs[i].key| <= |l.keys| && l.keys[koff..koff + |recs[i].key|] == recs[i].key
    ensures |recs[i].val| <= voff <= |l.vals|
    ensures l.vals[|l.vals| - voff..|l.vals| - voff + |recs[i].val|] == recs[i].val
  {
    koff, voff := Offsets(recs, i);
  }

  lemma OneEntry(l: Layout, recs: seq<Record>, b: Bytes, i: nat)
    requires i < |recs|
    requires PartsHeld(l, b) && l.toc == TocBytes(recs) && l.keys == KeyBytes(recs) && l.vals == ValBytes(recs)
    ensures EntryHolds(b, l.start, l.keyArea, l.valEnd, i, recs[i])
  {
    hide PartsHeld, KeyBytes, ValBytes, TocBytes, EntryHolds;
    var koff, voff := LayoutOffsets(l, recs, i);
    EntryFromParts(b, l, i, koff, voff, recs[i]);
  }

  // ---------- both parsers ----------

  /** The old block is an object the reader takes for a node, with variable-size keys and values, and
      its root flag is the one the writer was told. */
  ghost predicate NodeShaped(was: Bytes, node: NodeImage)
    requires |was| == BS
  {
    var flags := Field(was, 32, 2);
    && flags / 4 % 2 == 0
    && node.isRoot == (flags % 2 == 1)
    && (Field(was, 24, 4) % 0x1_0000 == OBJECT_TYPE_BTREE || Field(was, 24, 4) % 0x1_0000 == OBJECT_TYPE_BTREE_NODE)
  }

  /** The header after writing, field by field. */
  lemma HeaderFields(was: Bytes, l: Layout, b: Bytes)
    requires Written(was, l, b)
    ensures |b| == BS && Field(b, 24, 4) == Field(was, 24, 4) && Field(b, 32, 2) == Field(was, 32, 2)
    ensures Field(b, 8, 8) == Field(was, 8, 8) && Field(b, 16, 8) == Field(was, 16, 8)
    ensures Field(b, 36, 4) == FromLE(l.nkeys) && Field(b, 40, 2) == Field(was, 40, 2)
    ensures Field(b, 42, 2) == FromLE(l.tableLen) && Field(b, 44, 2) == FromLE(l.freeOff) && Field(b, 46, 2) == FromLE(l.freeLen)
  {
    SameWithin(was, b, 24, 4);
    SameWithin(was, b, 32, 2);
    SameWithin(was, b, 8, 8);
    SameWithin(was, b, 16, 8);
    FieldIs(b, 36, 4, l.nkeys);
    SameField(b, 40, was, 40, 2);
    FieldIs(b, 42, 2, l.tableLen);
    FieldIs(b, 44, 2, l.freeOff);
    FieldIs(b, 46, 2, l.freeLen);
  }

  lemma SameWithin(was: Bytes, b: Bytes, pos: nat, n: nat)
    requires |was| == |b| && 8 <= pos && pos + n <= 36 <= |b| && b[8..36] == was[8..36]
    ensures Field(b, pos, n) == Field(was, pos, n)
  {
    SliceField(b, 8, 36, pos - 8, n);
    SliceField(was, 8, 36, pos - 8, n);
  }

  /** The counts and lengths in a node's layout fit their fields. */
  lemma LayoutFields(was: Bytes, node: NodeImage)
    requires |was| == BS && Fits(was, node)
    ensures var l := LayoutOf(was, node);
            && FromLE(l.nkeys) == |node.records| <= 505 && FromLE(l.tableLen) == TableLen(node)
            && FromLE(l.freeOff) == |l.keys| && FromLE(l.freeLen) == |l.gap|
  {
    TableCapacity(node);
    CountFields(|node.records|, TableLen(node), |KeyBytes(node.records)|, |LayoutOf(was, node).gap|);
  }

  lemma CountFields(n: nat, len: nat, keys: nat, gap: nat)
    requires n < U32 && len < U16 && keys < U16 && gap < U16
    ensures FromLE(LE(n, 4)) == n && FromLE(LE(len, 2)) == len && FromLE(LE(keys, 2)) == keys && FromLE(LE(gap, 2)) == gap
  {
    LE4(n);
    LE2(len);
    LE2(keys);
    LE2(gap);
  }

  lemma {:induction false} RecordsReadBack(at: EntryReader, recs: seq<Record>, i: nat)
    requires i <= |recs|
    requires forall j :: 0 <= j < |recs| ==> at(j) == Ok(recs[j])
    ensures RecordsFrom(at, i, |recs|) == Ok(recs[i..])
    decreases |recs| - i
  {
    if i < |recs| {
      RecordsReadBack(at, recs, i + 1);
      assert recs[i..] == [recs[i]] + recs[i + 1..];
    }
  }

  lemma HeldRecord(b: Bytes, start: nat, keyArea: nat, valEnd: nat, i: nat, rec: Record)
    requires EntryHolds(b, start, keyArea, valEnd, i, rec)
    ensures RecordAt(b, start, keyArea, valEnd, i) == Ok(rec)
  {
  }

  /** What both parsers start from: the block's header fields and its entries. */
  lemma Reading(was: Bytes, node: NodeImage, b: Bytes)
    requires |was| == BS && Fits(was, node) && Written(was, LayoutOf(was, node), b)
    ensures |b| == BS && Field(b, 24, 4) == Field(was, 24, 4) && Field(b, 32, 2) == Field(was, 32, 2)
    ensures Field(b, 36, 4) == |node.records| <= 505
    ensures Field(b, 40, 2) == Field(was, 40, 2) && Field(b, 42, 2) == TableLen(node)
    ensures forall i :: 0 <= i < |node.records| ==>
              EntryHolds(b, DataStart(was), DataStart(was) + TableLen(node), ValEnd(node.isRoot), i, node.records[i])
  {
    hide Written, EntryHolds, Field, LE, NodeWriter.Fits, FromLE;
    HeaderFields(was, LayoutOf(was, node), b);
    LayoutFields(was, node);
    WrittenEntries(was, node, LayoutOf(was, node), b);
  }

  lemma WrittenEntries(was: Bytes, node: NodeImage, l: Layout, b: Bytes)
    requires |was| == BS && Fits(was, node) && l == LayoutOf(was, node) && Written(was, l, b)
    ensures forall i :: 0 <= i < |node.records| ==> EntryHolds(b, l.start, l.keyArea, l.valEnd, i, node.records[i])
  {
    PartsOf(was, l, b);
    hide Written, PartsHeld, EntryHolds;
    AllEntries(l, node.records, b);
  }

  /** Printing and parsing with the writer's parser gives the node back, its table grown if it had to be. */
  lemma WriterRoundTrip(was: Bytes, node: NodeImage, b: Bytes)
    requires |was| == BS && Fits(was, node) && Written(was, LayoutOf(was, node), b) && NodeShaped(was, node)
    ensures |b| == BS && ParsedImage(b, node.paddr) == Ok(node.(tableLen := TableLen(node)))
  {
    hide Written, EntryHolds, TableLen;
    Reading(was, node, b);
    ParsesTo(b, node.paddr, node.records, node.isRoot, TableLen(node));
  }

  lemma ParsesTo(b: Bytes, paddr: nat, recs: seq<Record>, isRoot: bool, tableLen: nat)
    requires |b| == BS && Field(b, 36, 4) == |recs| && Field(b, 42, 2) == tableLen
    requires Field(b, 32, 2) / 4 % 2 == 0 && isRoot == (Field(b, 32, 2) % 2 == 1)
    requires var start := 56 + Field(b, 40, 2);
             forall i :: 0 <= i < |recs| ==> EntryHolds(b, start, start + tableLen, ValEnd(isRoot), i, recs[i])
    ensures ParsedImage(b, paddr) == Ok(NodeImage(paddr, recs, isRoot, tableLen))
  {
    hide Field, EntryHolds, RecordAt;
    var start := 56 + Field(b, 40, 2);
    var at := Entries(b, start, start + tableLen, ValEnd(isRoot));
    forall i | 0 <= i < |recs|
      ensures at(i) == Ok(recs[i])
    {
      HeldRecord(b, start, start + tableLen, ValEnd(isRoot), i, recs[i]);
    }
    RecordsReadBack(at, recs, 0);
    assert recs[0..] == recs;
  }

  /** A held entry is what the core's accessors return. */
  lemma AccessorsAt(nb: NodeBlock, i: nat, rec: Record, keySize: nat, valSize: nat, nonleaf: nat)
    requires !nb.FixedKv() && i < nb.nkeys
    requires EntryHolds(nb.block, nb.TocStart(), nb.KeyArea(), nb.ValAreaEnd(), i, rec)
    ensures nb.Key(i, keySize) == Ok(rec.key) && nb.Value(i, valSize, nonleaf) == Ok(Some(rec.val))
  {
    var e := nb.TocEntry(i);
    assert e == Ok(TocFields(Field(nb.block, nb.TocStart() + i * 8, 2), Some(|rec.key|),
                             Field(nb.block, nb.TocStart() + i * 8 + 4, 2), Some(|rec.val|)));
  }

  /** Every accessor call on the node returns the record's key or value. */
  ghost predicate Reads(nb: NodeBlock, recs: seq<Record>) {
    nb.nkeys == |recs| &&
    forall i: nat :: i < |recs| ==> ReadsAt(nb, i, recs[i])
  }

  ghost predicate ReadsAt(nb: NodeBlock, i: nat, rec: Record) {
    (forall keySize: nat :: nb.Key(i, keySize) == Ok(rec.key)) &&
    forall valSize: nat, nonleaf: nat :: nb.Value(i, valSize, nonleaf) == Ok(Some(rec.val))
  }

  lemma ReadsHeld(nb: NodeBlock, i: nat, rec: Record)
    requires !nb.FixedKv() && i < nb.nkeys
    requires EntryHolds(nb.block, nb.TocStart(), nb.KeyArea(), nb.ValAreaEnd(), i, rec)
    ensures ReadsAt(nb, i, rec)
  {
    forall keySize: nat
      ensures nb.Key(i, keySize) == Ok(rec.key)
    {
      AccessorsAt(nb, i, rec, keySize, 0, 0);
    }
    forall valSize: nat, nonleaf: nat
      ensures nb.Value(i, valSize, nonleaf) == Ok(Some(rec.val))
    {
      AccessorsAt(nb, i, rec, 0, valSize, nonleaf);
    }
  }

  lemma EntriesRead(nb: NodeBlock, recs: seq<Record>)
    requires !nb.FixedKv() && nb.nkeys == |recs|
    requires forall i :: 0 <= i < |recs| ==> EntryHolds(nb.block, nb.TocStart(), nb.KeyArea(), nb.ValAreaEnd(), i, recs[i])
    ensures Reads(nb, recs)
  {
    hide ReadsAt, EntryHolds;
    forall i: nat | i < |recs|
      ensures ReadsAt(nb, i, recs[i])
    {
      ReadsHeld(nb, i, recs[i]);
    }
  }

  lemma ParsesAsNode(b: Bytes)
    requires |b| == BS && Field(b, 36, 4) <= 4096
    requires Field(b, 24, 4) % 0x1_0000 == OBJECT_TYPE_BTREE || Field(b, 24, 4) % 0x1_0000 == OBJECT_TYPE_BTREE_NODE
    ensures ParseNode(b) == Ok(NodeBlock(Field(b, 32, 2), Field(b, 36, 4), Field(b, 40, 2), Field(b, 42, 2), b))
  {
  }

  /** Printing and reading with the core's accessors gives every key and value back, in order. */
  lemma ReaderRoundTrip(was: Bytes, node: NodeImage, b: Bytes)
    requires |was| == BS && Fits(was, node) && Written(was, LayoutOf(was, node), b) && NodeShaped(was, node)
    ensures ParseNode(b).Ok? && Reads(ParseNode(b).value, node.records)
    ensures ParseNode(b).value.flags == Field(was, 32, 2) && ParseNode(b).value.block == b
  {
    hide Written, EntryHolds, TableLen;
    Reading(was, node, b);
    ParsesAsNode(b);
    var nb := ParseNode(b).value;
    EntriesRead(nb, node.records);
  }

  /** A written root's tree information: the fixed sizes are kept, the key count is the number of records. */
  lemma TreeInfoRoundTrip(was: Bytes, node: NodeImage, b: Bytes)
    requires |was| == BS && Fits(was, node) && Written(was, LayoutOf(was, node), b) && NodeShaped(was, node) && node.isRoot
    ensures ParseNode(b).Ok?
    ensures ParseTreeInfo(ParseNode(b).value) == Ok(TreeInfo(Field(was, 4064, 4), Field(was, 4068, 4), |node.records|))
  {
    hide Field, Reads, HeaderWritten, DataWritten, ParseNode, Fits, LongestKey, LongestVal, LE;
    ReaderRoundTrip(was, node, b);
    Reading(was, node, b);
    var l := LayoutOf(was, node);
    assert b[4056..4072] == was[4056..4072] && b[4072..4088] == Stats(node.records);
    KeptField(was, b, 4064);
    KeptField(was, b, 4068);
    CountField(b, node.records);
  }

  lemma KeptField(was: Bytes, b: Bytes, pos: nat)
    requires |was| == |b| == BS && b[4056..4072] == was[4056..4072] && 4056 <= pos <= 4068
    ensures Field(b, pos, 4) == Field(was, pos, 4)
  {
    hide Field;
    SubSlice(b, 4056, 4072, pos - 4056, pos - 4052);
    SubSlice(was, 4056, 4072, pos - 4056, pos - 4052);
    SameField(b, pos, was, pos, 4);
  }

  lemma CountField(b: Bytes, recs: seq<Record>)
    requires |b| == BS && b[4072..4088] == Stats(recs) && |recs| < U64
    ensures Field(b, 4080, 8) == |recs|
  {
    hide Field, LE, LongestKey, LongestVal;
    SubSlice(b, 4072, 4088, 8, 16);
    assert Stats(recs)[8..16] == LE(|recs|, 8);
    FieldIs(b, 4080, 8, LE(|recs|, 8));
    LE8(|recs|);
  }

  /** Entry `i` of a node of fixed-size records: its two offsets, and the key and value they lead to. */
  ghost predicate FixedEntryHolds(nb: NodeBlock, i: nat, koff: nat, voff: nat, key: Bytes, val: Bytes) {
    var at := nb.TocStart() + i * 4;
    && at + 4 <= |nb.block| && nb.block[at..at + 4] == LE(koff, 2) + LE(voff, 2) && koff < U16 && voff < U16
    && nb.KeyArea() + koff + |key| <= |nb.block|
    && nb.block[nb.KeyArea() + koff..nb.KeyArea() + koff + |key|] == key
    && (voff != BTOFF_INVALID ==>
          && |val| <= voff <= nb.ValAreaEnd() <= |nb.block|
          && nb.block[nb.ValAreaEnd() - voff..nb.ValAreaEnd() - voff + |val|] == val)
  }

  /** The accessors on fixed-size records, object maps above all: lengths come from the tree's sizes, a
      child reference has 8 bytes, and the invalid offset marks a ghost. */
  lemma FixedAccessors(nb: NodeBlock, i: nat, koff: nat, voff: nat, key: Bytes, val: Bytes)
    requires nb.FixedKv() && i < nb.nkeys && FixedEntryHolds(nb, i, koff, voff, key, val)
    ensures nb.Key(i, |key|) == Ok(key)
    ensures voff == BTOFF_INVALID ==> forall n: nat :: nb.Value(i, n, 8) == Ok(None)
    ensures voff != BTOFF_INVALID && nb.IsLeaf() ==> nb.Value(i, |val|, 8) == Ok(Some(val))
    ensures voff != BTOFF_INVALID && !nb.IsLeaf() && |val| == 8 ==> forall n: nat :: nb.Value(i, n, 8) == Ok(Some(val))
  {
    hide Field, LE;
    FixedToc(nb.block, nb.TocStart() + i * 4, koff, voff);
    assert nb.TocEntry(i) == Ok(TocFields(koff, None, voff, None));
  }

  lemma FixedToc(b: Bytes, at: nat, koff: nat, voff: nat)
    requires at + 4 <= |b| && b[at..at + 4] == LE(koff, 2) + LE(voff, 2) && koff < U16 && voff < U16
    ensures ReadLE(b, at, 2) == Ok(koff) && ReadLE(b, at + 2, 2) == Ok(voff)
  {
    hide Field, LE;
    SubSlice(b, at, at + 4, 0, 2);
    SubSlice(b, at, at + 4, 2, 4);
    FieldIs(b, at, 2, LE(koff, 2));
    FieldIs(b, at + 2, 2, LE(voff, 2));
    LE2(koff);
    LE2(voff);
  }
}
