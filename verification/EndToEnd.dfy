/** From the writer to the reader: records inserted, sorted and serialized by the one are found by the other. */
module EndToEnd {
  import opened Bytes
  import opened Checksum
  import opened BTree
  import opened BTreeTheory
  import opened NodeCodec
  import opened NodeWriter
  import opened NodeRoundTrip
  import opened Records
  import opened Sorting
  import opened Volume
  import opened VolumeTheory

  // ---------- the writer: insert, sort, serialize ----------

  /** Every record in the node and every added one has a sort key. */
  ghost predicate CanSort(was: Bytes, paddr: nat, added: seq<Record>) {
    |was| == BS && (ParsedImage(was, paddr).Ok? ==> AllSortable(ParsedImage(was, paddr).value.records + added))
  }

  /** Inserting completes: the node parses, and the records fit. */
  ghost predicate CanInsert(was: Bytes, paddr: nat, added: seq<Record>)
    requires CanSort(was, paddr, added)
  {
    ParsedImage(was, paddr).Ok? && Fits(was, Rebuilt(ParsedImage(was, paddr).value, added))
  }

  ghost predicate InsertedAt(was: Bytes, paddr: nat, added: seq<Record>, b: Bytes) {
    |was| == BS && ParsedImage(was, paddr).Ok? && Inserted(was, ParsedImage(was, paddr).value, added, b)
  }

  /** The tree update of `main`: read the node, add the records, sort, write the node back. */
  method InsertRecords(img: Image, paddr: nat, added: seq<Record>) returns (ok: bool)
    requires img.Has(paddr) && CanSort(img.Block(paddr), paddr, added)
    modifies img
    ensures ok <==> CanInsert(old(img.Block(paddr)), paddr, added)
    ensures ok ==> |img.data| == |old(img.data)| && InsertedAt(old(img.Block(paddr)), paddr, added, img.Block(paddr))
    ensures ok ==> forall m: nat :: m != paddr && img.Has(m) ==> img.Block(m) == old(img.Block(m))
  {
    hide ParsedImage, Fits, Written, Sortable;
    var parsed := ParseNodeImage(img, paddr);
    if parsed.Err? {
      return false;
    }
    ParsedPaddr(img.Block(paddr), paddr);
    var node := Rebuilt(parsed.value, added);
    ok := img.SerializeNode(node);
  }

  lemma ParsedPaddr(b: Bytes, paddr: nat)
    requires |b| == BS && ParsedImage(b, paddr).Ok?
    ensures ParsedImage(b, paddr).value.paddr == paddr
  {
  }

  function Rebuilt(node: NodeImage, added: seq<Record>): NodeImage
    requires forall r :: r in node.records + added ==> Sortable(r)
  {
    node.(records := Sort(node.records + added))
  }

  /** `b` is the node's block after inserting `added`. */
  ghost predicate Inserted(was: Bytes, node: NodeImage, added: seq<Record>, b: Bytes) {
    && |was| == BS && AllSortable(node.records + added)
    && Fits(was, Rebuilt(node, added)) && Written(was, LayoutOf(was, Rebuilt(node, added)), b)
  }

  // ---------- the records as tree entries ----------

  ghost function EntryOf(r: Record): Entry {
    Entry(r.key, Some(r.val))
  }

  ghost function EntriesOf(recs: seq<Record>): (es: seq<Entry>)
    ensures |es| == |recs|
  {
    seq(|recs|, i requires 0 <= i < |recs| => EntryOf(recs[i]))
  }

  /** The records of one (id, type). */
  ghost function SelectRecords(recs: seq<Record>, id: nat, rtype: nat): seq<Record> {
    if |recs| == 0 then []
    else (if KeyHeader(recs[0].key) == Ok((id, rtype)) then [recs[0]] else []) + SelectRecords(recs[1..], id, rtype)
  }

  lemma {:induction false} SelectEntries(recs: seq<Record>, id: nat, rtype: nat)
    ensures Select(EntriesOf(recs), id, rtype) == EntriesOf(SelectRecords(recs, id, rtype))
  {
    hide KeyHeader;
    if |recs| > 0 {
      SelectEntries(recs[1..], id, rtype);
      assert EntriesOf(recs)[1..] == EntriesOf(recs[1..]);
    }
  }

  ghost function Chosen(r: Record, id: nat, rtype: nat): multiset<Record> {
    if KeyHeader(r.key) == Ok((id, rtype)) then multiset{r} else multiset{}
  }

  lemma {:induction false} SelectAppend(a: seq<Record>, b: seq<Record>, id: nat, rtype: nat)
    ensures SelectRecords(a + b, id, rtype) == SelectRecords(a, id, rtype) + SelectRecords(b, id, rtype)
  {
    hide KeyHeader, SelectRecords;
    if |a| == 0 {
      assert a + b == b;
      SelectNone(id, rtype);
    } else {
      SelectAppend(a[1..], b, id, rtype);
      SelectStep(a, id, rtype);
      SelectStep(a + b, id, rtype);
      assert (a + b)[1..] == a[1..] + b;
    }
  }

  lemma SelectNone(id: nat, rtype: nat)
    ensures SelectRecords([], id, rtype) == []
  {
  }

  lemma SelectStep(a: seq<Record>, id: nat, rtype: nat)
    requires |a| > 0
    ensures SelectRecords(a, id, rtype) ==
            (if KeyHeader(a[0].key) == Ok((id, rtype)) then [a[0]] else []) + SelectRecords(a[1..], id, rtype)
  {
    hide KeyHeader;
  }

  lemma SelectOne(r: Record, id: nat, rtype: nat)
    ensures multiset(SelectRecords([r], id, rtype)) == Chosen(r, id, rtype)
  {
    hide KeyHeader;
    assert [r][1..] == [];
  }

  /** Sorting neither adds, drops nor duplicates a matching record. */
  lemma {:induction false} SelectSorted(recs: seq<Record>, id: nat, rtype: nat)
    requires AllSortable(recs)
    ensures multiset(SelectRecords(Sort(recs), id, rtype)) == multiset(SelectRecords(recs, id, rtype))
  {
    hide KeyHeader, Sortable;
    if |recs| > 0 {
      var n := |recs| - 1;
      assert recs == recs[..n] + [recs[n]];
      SelectSorted(recs[..n], id, rtype);
      SelectInserted(Sort(recs[..n]), recs[n], id, rtype);
      SelectAppend(recs[..n], [recs[n]], id, rtype);
      SelectOne(recs[n], id, rtype);
    }
  }

  lemma {:induction false} SelectInserted(s: seq<Record>, r: Record, id: nat, rtype: nat)
    requires AllSortable(s) && Sortable(r)
    ensures multiset(SelectRecords(Insert(s, r), id, rtype)) == multiset(SelectRecords(s, id, rtype)) + Chosen(r, id, rtype)
    decreases |s|
  {
    hide KeyHeader, Sortable, KeyOf, Le, SelectRecords, Chosen;
    SelectOne(r, id, rtype);
    if |s| == 0 {
      SelectAppend(s, [r], id, rtype);
      assert Insert(s, r) == [r] == s + [r];
    } else {
      var n := |s| - 1;
      assert s == s[..n] + [s[n]];
      if Le(KeyOf(s[n]), KeyOf(r)) {
        SelectAppend(s, [r], id, rtype);
      } else {
        SelectInserted(s[..n], r, id, rtype);
        SelectAppend(s[..n], [s[n]], id, rtype);
        SelectAppend(Insert(s[..n], r), [s[n]], id, rtype);
      }
    }
  }

  /** The sort order refines the order of (id, type) prefixes, so every prefix comparator is monotone on it. */
  lemma SortedIsHeaderSorted(recs: seq<Record>)
    requires Sorted(recs)
    ensures HeaderSorted(EntriesOf(recs))
  {
    forall i, j | 0 <= i < j < |recs|
      ensures HeaderLe(recs[i].key, recs[j].key)
    {
      LeIsHeaderLe(recs[i], recs[j]);
    }
    forall e | e in EntriesOf(recs)
      ensures KeyHeader(e.key).Ok?
    {
      var i :| 0 <= i < |recs| && EntriesOf(recs)[i] == e;
      assert recs[i] in recs;
    }
  }

  lemma LeIsHeaderLe(a: Record, b: Record)
    requires Sortable(a) && Sortable(b) && Le(KeyOf(a), KeyOf(b))
    ensures HeaderLe(a.key, b.key)
  {
    hide Field, BytesLe;
  }

  // ---------- one written leaf ----------

  /** The block the writer started from is a leaf of the kind the writer handles. */
  ghost predicate LeafShaped(was: Bytes, node: NodeImage)
    requires |was| == BS
  {
    NodeShaped(was, node) && Field(was, 32, 2) / 2 % 2 == 1
  }

  lemma PresentsRecords(nb: NodeBlock, recs: seq<Record>, src: Source, keySize: nat, valSize: nat)
    requires nb.IsLeaf() && Reads(nb, recs)
    ensures Denotes(src, Present(nb, keySize, valSize), Leaf(EntriesOf(recs)))
  {
    var node := Present(nb, keySize, valSize);
    forall i | 0 <= i < |recs|
      ensures node.keys[i] == Ok(recs[i].key) && node.vals[i] == Ok(Some(recs[i].val))
    {
      assert ReadsAt(nb, i, recs[i]);
    }
  }

  function Keep(): Visitor<seq<Entry>> {
    (s: seq<Entry>, e: Entry) => Ok((s + [e], true))
  }

  lemma {:induction false} KeepKeeps(s: seq<Entry>, es: seq<Entry>)
    ensures StateOf(Run(Keep(), s, Trace(es, None))) == Ok(s + es)
    decreases |es|
  {
    if |es| > 0 {
      KeepKeeps(s + [es[0]], es[1..]);
      assert s + [es[0]] + es[1..] == s + es;
    } else {
      assert s + es == s;
    }
  }

  /** After inserting, the block passes its checksum, and a scan for any (id, type) on it, stopped at the
      first mismatch, returns exactly the node's and the added records of that (id, type), in key order and
      with multiplicity. */
  lemma ScanFindsInserted(was: Bytes, node: NodeImage, added: seq<Record>, b: Bytes,
                          src: Source, keySize: nat, valSize: nat, id: nat, rtype: nat)
    requires Inserted(was, node, added, b) && LeafShaped(was, node)
    ensures Verify(b) && ParseNode(b).Ok?
    ensures var all := node.records + added;
            var found := SelectRecords(Sort(all), id, rtype);
            && StateOf(Run(Matching(id, rtype, Keep()), [],
                           ScanTrace(src, Present(ParseNode(b).value, keySize, valSize), CmpIdType(id, rtype), 0))) ==
               Ok(EntriesOf(found))
            && multiset(found) == multiset(SelectRecords(all, id, rtype))
  {
    hide Sortable, Fits, LayoutOf, Reads, Field, Written, ScanTrace, Run, CmpIdType, Matching, ParseNode, Verify;
    var all := node.records + added;
    var sorted := Sort(all);
    WrittenLeaf(was, Rebuilt(node, added), b, src, keySize, valSize);
    SortSorts(all);
    SelectSorted(all, id, rtype);
    SelectEntries(sorted, id, rtype);
    LeafScan(src, Present(ParseNode(b).value, keySize, valSize), sorted, id, rtype);
  }

  lemma WrittenLeaf(was: Bytes, node: NodeImage, b: Bytes, src: Source, keySize: nat, valSize: nat)
    requires |was| == BS && Fits(was, node) && Written(was, LayoutOf(was, node), b) && LeafShaped(was, node)
    ensures Verify(b) && ParseNode(b).Ok? && ParseNode(b).value.flags == Field(was, 32, 2)
    ensures Denotes(src, Present(ParseNode(b).value, keySize, valSize), Leaf(EntriesOf(node.records)))
  {
    hide Fits, LayoutOf, Reads, ParseNode, Denotes, HeaderWritten, DataWritten, TailWritten, Verify, Present, Field;
    ReaderRoundTrip(was, node, b);
    PresentsRecords(ParseNode(b).value, node.records, src, keySize, valSize);
  }

  lemma LeafIsHeaderSorted(recs: seq<Record>)
    requires Sorted(recs)
    ensures Ordered(HeaderLe, Leaf(EntriesOf(recs))) && Headed(Leaf(EntriesOf(recs)))
  {
    SortedIsHeaderSorted(recs);
  }

  lemma LeafScan(src: Source, n: Node, recs: seq<Record>, id: nat, rtype: nat)
    requires Sorted(recs) && Denotes(src, n, Leaf(EntriesOf(recs)))
    ensures StateOf(Run(Matching(id, rtype, Keep()), [], ScanTrace(src, n, CmpIdType(id, rtype), 0))) ==
            Ok(Select(EntriesOf(recs), id, rtype))
  {
    hide CmpIdType, Matching, ScanTrace, WalkTrace, Run, HeaderLe;
    var t, es, cmp := Leaf(EntriesOf(recs)), EntriesOf(recs), CmpIdType(id, rtype);
    LeafIsHeaderSorted(recs);
    HeadedComparable(t, id, rtype);
    PrefixMonotone(id, rtype);
    OrderedFits(cmp, HeaderLe, t);
    ScanIsDropLess(src, n, cmp, t, 0);
    SortedIsHeaderSorted(recs);
    DropSorted(cmp, es);
    DroppedUnselected(es, id, rtype);
    MatchingIsSelect(id, rtype, Keep(), [], DropLess(cmp, es));
    KeepKeeps([], Select(es, id, rtype));
    assert [] + Select(es, id, rtype) == Select(es, id, rtype);
  }
}
