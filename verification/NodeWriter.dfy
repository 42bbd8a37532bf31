/** The writer's in-memory image and its node printer and parser (`apfs-fixture`). */
module NodeWriter {
  import opened Bytes
  import opened Checksum
  import opened NodeCodec

  const BS := 4096

  datatype Record = Record(key: Bytes, val: Bytes)

  datatype NodeImage = NodeImage(paddr: nat, records: seq<Record>, isRoot: bool, tableLen: nat)

  // ---------- layout of a node ----------

  /** Keys, first record first. */
  function KeyBytes(recs: seq<Record>): Bytes {
    if |recs| == 0 then [] else KeyBytes(recs[..|recs| - 1]) + recs[|recs| - 1].key
  }

  /** Values, last record first: they grow down from the end of the value area. */
  function ValBytes(recs: seq<Record>): Bytes {
    if |recs| == 0 then [] else recs[|recs| - 1].val + ValBytes(recs[..|recs| - 1])
  }

  function TocFieldsOf(keyOff: nat, keyLen: nat, valOff: nat, valLen: nat): (r: Bytes)
    ensures |r| == 8
  {
    LE(keyOff, 2) + LE(keyLen, 2) + LE(valOff, 2) + LE(valLen, 2)
  }

  /** The table of contents: where each key starts from the key area's start, and each value from
      the value area's end. */
  function TocBytes(recs: seq<Record>): (r: Bytes)
    ensures |r| == 8 * |recs|
  {
    if |recs| == 0 then []
    else
      var n := |recs| - 1;
      TocBytes(recs[..n]) +
      TocFieldsOf(|KeyBytes(recs[..n])|, |recs[n].key|, |ValBytes(recs)|, |recs[n].val|)
  }

  /** The table's length after growing it if it is too short. */
  function TableLen(node: NodeImage): nat {
    if |node.records| * 8 > node.tableLen then (|node.records| * 8 + 63) / 64 * 64 else node.tableLen
  }

  function ValEnd(isRoot: bool): nat {
    if isRoot then BS - BTREE_INFO_SIZE else BS
  }

  function DataStart(was: Bytes): nat
    requires |was| == BS
  {
    56 + Field(was, 40, 2)
  }

  /** `serialize_node` completes: otherwise it panics on a slice or on its overflow assertion. */
  predicate Fits(was: Bytes, node: NodeImage)
    requires |was| == BS
  {
    DataStart(was) + TableLen(node) + |KeyBytes(node.records)| + |ValBytes(node.records)| <= ValEnd(node.isRoot)
  }

  function LongestKey(recs: seq<Record>): nat {
    if |recs| == 0 then 0 else Max(LongestKey(recs[..|recs| - 1]), |recs[|recs| - 1].key|)
  }

  function LongestVal(recs: seq<Record>): nat {
    if |recs| == 0 then 0 else Max(LongestVal(recs[..|recs| - 1]), |recs[|recs| - 1].val|)
  }

  const EMPTY_FREE_LISTS: Bytes := [255, 255, 0, 0, 255, 255, 0, 0]

  /** Everything a node's block is rebuilt from, as bytes: header fields, table of contents with its
      zeroed spare entries, keys, zeroed gap, values, and the root's three statistics. */
  datatype Layout = Layout(nkeys: Bytes, tableLen: Bytes, freeOff: Bytes, freeLen: Bytes,
                           start: nat, toc: Bytes, spare: Bytes,
                           keyArea: nat, keys: Bytes, gap: Bytes, vals: Bytes, valEnd: nat, stats: Bytes)
  {
    ghost predicate Sound() {
      && |nkeys| == 4 && |tableLen| == 2 && |freeOff| == 2 && |freeLen| == 2
      && 56 <= start && start + |toc| + |spare| <= keyArea
      && keyArea + |keys| + |gap| + |vals| == valEnd
      && (if valEnd == BS then stats == [] else valEnd == BS - BTREE_INFO_SIZE && |stats| == 16)
    }
  }

  function LayoutOf(was: Bytes, node: NodeImage): Layout
    requires |was| == BS && Fits(was, node)
  {
    TableCapacity(node);
    var recs, start := node.records, DataStart(was);
    var gap := ValEnd(node.isRoot) - |ValBytes(recs)| - start - TableLen(node) - |KeyBytes(recs)|;
    Layout(LE(|recs|, 4), LE(TableLen(node), 2), LE(|KeyBytes(recs)|, 2), LE(gap, 2),
           start, TocBytes(recs), Zeros(TableLen(node) / 8 * 8 - 8 * |recs|),
           start + TableLen(node), KeyBytes(recs), Zeros(gap), ValBytes(recs), ValEnd(node.isRoot),
           if node.isRoot then Stats(recs) else [])
  }

  /** `bt_longest_key`, `bt_longest_val` and `bt_key_count`. */
  function Stats(recs: seq<Record>): (r: Bytes)
    ensures |r| == 16
  {
    LE(LongestKey(recs), 4) + LE(LongestVal(recs), 4) + LE(|recs|, 8)
  }

  /** The block holds the layout: the parts of the data area follow one another without overlap, the
      free length is the gap's, and everything the writer does not own is as it was. */
  ghost predicate Written(was: Bytes, l: Layout, b: Bytes) {
    && |was| == |b| == BS && l.Sound() && Verify(b)
    && HeaderWritten(was, l, b)
    && DataWritten(was, l, b)
    && TailWritten(was, l, b)
  }

  ghost predicate HeaderWritten(was: Bytes, l: Layout, b: Bytes)
    requires |was| == |b| == BS
  {
    && b[8..36] == was[8..36] && b[36..40] == l.nkeys && b[40..42] == was[40..42] && b[42..44] == l.tableLen
    && b[44..46] == l.freeOff && b[46..48] == l.freeLen && b[48..56] == EMPTY_FREE_LISTS
  }

  ghost predicate DataWritten(was: Bytes, l: Layout, b: Bytes)
    requires |was| == |b| == BS && l.Sound()
  {
    var spareAt, gapAt := l.start + |l.toc|, l.keyArea + |l.keys|;
    && b[56..l.start] == was[56..l.start]
    && b[l.start..spareAt] == l.toc
    && b[spareAt..spareAt + |l.spare|] == l.spare
    && b[spareAt + |l.spare|..l.keyArea] == was[spareAt + |l.spare|..l.keyArea]
    && b[l.keyArea..gapAt] == l.keys
    && b[gapAt..gapAt + |l.gap|] == l.gap
    && b[gapAt + |l.gap|..l.valEnd] == l.vals
  }

  /** A root's tree information keeps its fixed part and its node count. */
  ghost predicate TailWritten(was: Bytes, l: Layout, b: Bytes)
    requires |was| == |b| == BS && l.Sound()
  {
    l.valEnd < BS ==>
      && b[l.valEnd..l.valEnd + 16] == was[l.valEnd..l.valEnd + 16]
      && b[l.valEnd + 16..l.valEnd + 32] == l.stats
      && b[l.valEnd + 32..BS] == was[l.valEnd + 32..BS]
  }

  lemma TableCapacity(node: NodeImage)
    ensures 8 * |node.records| <= TableLen(node) / 8 * 8 <= TableLen(node)
  {
  }

  // ---------- the image ----------

  function Reversed(s: Bytes): (r: Bytes)
    ensures |r| == |s|
  {
    if |s| == 0 then [] else Reversed(s[1..]) + [s[0]]
  }

  lemma {:induction false} ReversedAppend(a: Bytes, b: Bytes)
    ensures Reversed(a + b) == Reversed(b) + Reversed(a)
  {
    if |a| == 0 {
      assert a + b == b;
    } else {
      assert (a + b)[1..] == a[1..] + b;
      ReversedAppend(a[1..], b);
    }
  }

  lemma {:induction false} ReversedTwice(s: Bytes)
    ensures Reversed(Reversed(s)) == s
  {
    if |s| > 0 {
      ReversedTwice(s[1..]);
      ReversedAppend(Reversed(s[1..]), [s[0]]);
      assert [s[0]][1..] == [];
    }
  }

  class Image {
    var data: Bytes

    constructor (data: Bytes)
      ensures this.data == data
    {
      this.data := data;
    }

    predicate Has(n: nat)
      reads this
    {
      (n + 1) * BS <= |data|
    }

    function Block(n: nat): (b: Bytes)
      requires Has(n)
      reads this
      ensures |b| == BS
    {
      data[n * BS..(n + 1) * BS]
    }

    /** Put back a block borrowed for writing. */
    method Store(n: nat, blk: Bytes)
      requires Has(n) && |blk| == BS
      modifies this
      ensures |data| == |old(data)|
      ensures Block(n) == blk
      ensures forall m: nat :: m != n && Has(m) ==> Block(m) == old(Block(m))
    {
      ghost var was := data;
      data := Splice(data, n * BS, blk);
      SpliceReads(was, n * BS, blk);
      forall m: nat | m != n && Has(m)
        ensures Block(m) == was[m * BS..(m + 1) * BS]
      {
        if m < n {
          assert (m + 1) * BS <= n * BS;
        } else {
          assert (n + 1) * BS <= m * BS;
        }
      }
    }

    /** `fix_checksum`. */
    method FixChecksum(n: nat)
      requires Has(n)
      modifies this
      ensures |data| == |old(data)|
      ensures Block(n) == Stamped(old(Block(n)))
      ensures forall m: nat :: m != n && Has(m) ==> Block(m) == old(Block(m))
    {
      var ck := Fletcher64Object(Block(n));
      Store(n, Splice(Block(n), 0, LE(ck, 8)));
    }

    /** Rebuild a node's block in place; `false` is the panic of a node that does not fit. */
    method SerializeNode(node: NodeImage) returns (ok: bool)
      requires Has(node.paddr)
      modifies this
      ensures ok <==> Fits(old(Block(node.paddr)), node)
      ensures ok ==> |data| == |old(data)|
      ensures ok ==> Written(old(Block(node.paddr)), LayoutOf(old(Block(node.paddr)), node), Block(node.paddr))
      ensures ok ==> forall m: nat :: m != node.paddr && Has(m) ==> Block(m) == old(Block(m))
    {
      var b0 := Block(node.paddr);
      var l := ComputeLayout(b0, node);
      if l.None? {
        return false;
      }
      var b1 := WriteLayout(b0, l.value);
      Store(node.paddr, b1);
      FixChecksum(node.paddr);
      StampKeeps(b0, l.value, b1);
      return true;
    }
  }

  method ComputeLayout(was: Bytes, node: NodeImage) returns (r: Option<Layout>)
    requires |was| == BS
    ensures r == if Fits(was, node) then Some(LayoutOf(was, node)) else None
    ensures r.Some? ==> r.value.Sound()
  {
    var n, tableLen := |node.records|, node.tableLen;
    if n * 8 > tableLen {
      tableLen := (n * 8 + 63) / 64 * 64;
    }
    var cap := tableLen / 8;
    var keys, vals, toc := LayOut(node.records);
    var start := 56 + Field(was, 40, 2);
    var keyArea := start + tableLen;
    var valEnd := if node.isRoot then BS - BTREE_INFO_SIZE else BS;
    if keyArea + |keys| + |vals| > valEnd {
      return None;
    }
    var gap := valEnd - |vals| - keyArea - |keys|;
    var stats := ComputeStats(node);
    TableCapacity(node);
    r := Some(Layout(LE(n, 4), LE(tableLen, 2), LE(|keys|, 2), LE(gap, 2), start, toc, Zeros(8 * cap - 8 * n),
                     keyArea, keys, Zeros(gap), vals, valEnd, stats));
  }

  /** Write into a borrowed block. */
  method Put(blk: Bytes, off: nat, bytes: Bytes) returns (r: Bytes)
    requires off + |bytes| <= |blk|
    ensures Patched(blk, r, off, bytes)
  {
    r := Splice(blk, off, bytes);
    PatchIsSplice(blk, r, off, bytes);
  }

  /** The writer's writes, in order; each field and part is written once. */
  method WriteLayout(was: Bytes, l: Layout) returns (b: Bytes)
    requires |was| == BS && l.Sound()
    ensures |b| == BS && HeaderWritten(was, l, b) && DataWritten(was, l, b) && TailWritten(was, l, b)
  {
    var b1 := WriteData(was, l);
    var b2 := WriteHeader(b1, l);
    b := WriteTail(b2, l);
    LayoutKept(was, l, b1, b2, b);
  }

  method WriteData(was: Bytes, l: Layout) returns (b: Bytes)
    requires |was| == BS && l.Sound()
    ensures |b| == BS && DataWritten(was, l, b)
    ensures b[36..40] == l.nkeys && b[42..44] == l.tableLen
    ensures b[8..36] == was[8..36] && b[40..42] == was[40..42] && Agree(was, b, l.valEnd, BS)
  {
    var a := WriteToc(was, l);
    b := WriteKeysAndValues(a, l);
    DataParts(was, l, a, b);
  }

  method WriteToc(was: Bytes, l: Layout) returns (b: Bytes)
    requires |was| == BS && l.Sound()
    ensures |b| == BS && b[36..40] == l.nkeys && b[42..44] == l.tableLen
    ensures b[l.start..l.start + |l.toc|] == l.toc
    ensures b[l.start + |l.toc|..l.start + |l.toc| + |l.spare|] == l.spare
    ensures b[8..36] == was[8..36] && b[40..42] == was[40..42] && b[56..l.start] == was[56..l.start]
    ensures Agree(was, b, l.start + |l.toc| + |l.spare|, BS)
  {
    b := Put(was, 36, l.nkeys);
    b := Put(b, 42, l.tableLen);
    b := Put(b, l.start, l.toc);
    b := Put(b, l.start + |l.toc|, l.spare);
  }

  method WriteKeysAndValues(a: Bytes, l: Layout) returns (b: Bytes)
    requires |a| == BS && l.Sound()
    ensures |b| == BS && b[l.keyArea..l.keyArea + |l.keys|] == l.keys
    ensures b[l.keyArea + |l.keys|..l.valEnd - |l.vals|] == l.gap && b[l.valEnd - |l.vals|..l.valEnd] == l.vals
    ensures Agree(a, b, 0, l.keyArea) && Agree(a, b, l.valEnd, BS)
  {
    b := Put(a, l.keyArea, l.keys);
    b := Put(b, l.keyArea + |l.keys|, l.gap);
    b := Put(b, l.valEnd - |l.vals|, l.vals);
  }

  lemma DataParts(was: Bytes, l: Layout, a: Bytes, b: Bytes)
    requires |was| == |a| == |b| == BS && l.Sound()
    requires a[36..40] == l.nkeys && a[42..44] == l.tableLen
    requires a[l.start..l.start + |l.toc|] == l.toc
    requires a[l.start + |l.toc|..l.start + |l.toc| + |l.spare|] == l.spare
    requires a[8..36] == was[8..36] && a[40..42] == was[40..42] && a[56..l.start] == was[56..l.start]
    requires Agree(was, a, l.start + |l.toc| + |l.spare|, BS)
    requires b[l.keyArea..l.keyArea + |l.keys|] == l.keys
    requires b[l.keyArea + |l.keys|..l.valEnd - |l.vals|] == l.gap && b[l.valEnd - |l.vals|..l.valEnd] == l.vals
    requires Agree(a, b, 0, l.keyArea) && Agree(a, b, l.valEnd, BS)
    ensures DataWritten(was, l, b)
    ensures b[36..40] == l.nkeys && b[42..44] == l.tableLen
    ensures b[8..36] == was[8..36] && b[40..42] == was[40..42] && Agree(was, b, l.valEnd, BS)
  {
  }

  method WriteHeader(a: Bytes, l: Layout) returns (b: Bytes)
    requires |a| == BS && l.Sound()
    ensures |b| == BS && b[44..46] == l.freeOff && b[46..48] == l.freeLen && b[48..56] == EMPTY_FREE_LISTS
    ensures Agree(a, b, 0, 44) && Agree(a, b, 56, BS)
  {
    b := Put(a, 44, l.freeOff);
    b := Put(b, 46, l.freeLen);
    b := Put(b, 48, EMPTY_FREE_LISTS);
  }

  method WriteTail(a: Bytes, l: Layout) returns (b: Bytes)
    requires |a| == BS && l.Sound()
    ensures |b| == BS && TailWritten(a, l, b) && Agree(a, b, 0, l.valEnd)
  {
    b := a;
    if l.valEnd < BS {
      b := Put(b, l.valEnd + 16, l.stats);
    }
  }

  /** Two blocks that agree on every part of [lo, hi). */
  ghost predicate Agree(a: Bytes, b: Bytes, lo: nat, hi: nat)
    requires |a| == |b| && lo <= hi <= |a|
  {
    forall i, j :: lo <= i <= j <= hi ==> a[i..j] == b[i..j]
  }

  lemma LayoutKept(was: Bytes, l: Layout, b1: Bytes, b2: Bytes, b: Bytes)
    requires |was| == |b1| == |b2| == |b| == BS && l.Sound()
    requires DataWritten(was, l, b1) && b1[36..40] == l.nkeys && b1[42..44] == l.tableLen
    requires b1[8..36] == was[8..36] && b1[40..42] == was[40..42] && Agree(was, b1, l.valEnd, BS)
    requires b2[44..46] == l.freeOff && b2[46..48] == l.freeLen && b2[48..56] == EMPTY_FREE_LISTS
    requires Agree(b1, b2, 0, 44) && Agree(b1, b2, 56, BS)
    requires TailWritten(b2, l, b) && Agree(b2, b, 0, l.valEnd)
    ensures HeaderWritten(was, l, b) && DataWritten(was, l, b) && TailWritten(was, l, b)
  {
  }

  /** Stamping the checksum keeps everything after it. */
  lemma StampKeeps(was: Bytes, l: Layout, b: Bytes)
    requires |was| == |b| == BS && l.Sound()
    requires HeaderWritten(was, l, b) && DataWritten(was, l, b) && TailWritten(was, l, b)
    ensures Written(was, l, Stamped(b))
  {
    var s := Stamped(b);
    StampVerifies(b);
    forall i, j | 8 <= i <= j <= BS
      ensures b[i..j] == s[i..j]
    {
      SubSlice(b, 8, BS, i - 8, j - 8);
      SubSlice(s, 8, BS, i - 8, j - 8);
      assert b[8..] == b[8..BS] && s[8..] == s[8..BS];
    }
    assert Agree(b, s, 8, BS);
  }

  method LayOut(recs: seq<Record>) returns (keys: Bytes, vals: Bytes, toc: Bytes)
    ensures keys == KeyBytes(recs) && vals == ValBytes(recs) && toc == TocBytes(recs)
  {
    keys, toc := [], [];
    var valsRev: Bytes := [];
    for i := 0 to |recs|
      invariant keys == KeyBytes(recs[..i]) && valsRev == Reversed(ValBytes(recs[..i]))
      invariant toc == TocBytes(recs[..i])
    {
      var rec := recs[i];
      assert recs[..i + 1][..i] == recs[..i];
      var keyOff := |keys|;
      keys := keys + rec.key;
      var valOff := |valsRev| + |rec.val|;
      ReversedAppend(rec.val, ValBytes(recs[..i]));
      valsRev := valsRev + Reversed(rec.val);
      toc := toc + TocFieldsOf(keyOff, |rec.key|, valOff, |rec.val|);
    }
    assert recs[..|recs|] == recs;
    ReversedTwice(ValBytes(recs));
    vals := Reversed(valsRev);
  }

  method ComputeStats(node: NodeImage) returns (stats: Bytes)
    ensures stats == if node.isRoot then Stats(node.records) else []
  {
    stats := [];
    if node.isRoot {
      var longestKey, longestVal := Longest(node.records);
      stats := LE(longestKey, 4) + LE(longestVal, 4) + LE(|node.records|, 8);
    }
  }

  method Longest(recs: seq<Record>) returns (key: nat, val: nat)
    ensures key == LongestKey(recs) && val == LongestVal(recs)
  {
    key, val := 0, 0;
    for i := 0 to |recs|
      invariant key == LongestKey(recs[..i]) && val == LongestVal(recs[..i])
    {
      assert recs[..i + 1][..i] == recs[..i];
      key := Max(key, |recs[i].key|);
      val := Max(val, |recs[i].val|);
    }
    assert recs[..|recs|] == recs;
  }
}
