/** Record order: the writer's sort key (`Record::sort_key`) and its stable sort. */
module Sorting {
  import opened Bytes
  import opened Records
  import opened NodeWriter

  datatype SortKey = SortKey(id: nat, rtype: nat, number: nat, name: Bytes)

  /** The key is long enough for its type; `sort_key` panics otherwise. */
  predicate Sortable(r: Record) {
    |r.key| >= 8 &&
    var rtype := SplitJkey(Field(r.key, 0, 8)).1;
    && (rtype == APFS_TYPE_DIR_REC ==> |r.key| >= 12)
    && (rtype == APFS_TYPE_FILE_EXTENT ==> |r.key| >= 16)
    && (rtype == APFS_TYPE_XATTR ==> |r.key| >= 10)
  }

  function KeyOf(r: Record): SortKey
    requires Sortable(r)
  {
    var (id, rtype) := SplitJkey(Field(r.key, 0, 8));
    var number := if rtype == APFS_TYPE_DIR_REC then Field(r.key, 8, 4) / 1024 * 1024
                  else if rtype == APFS_TYPE_FILE_EXTENT then Field(r.key, 8, 8) else 0;
    var name := if rtype == APFS_TYPE_DIR_REC then r.key[12..]
                else if rtype == APFS_TYPE_XATTR then r.key[10..] else [];
    SortKey(id, rtype, number, name)
  }

  /** Lexicographic order of byte strings. */
  predicate BytesLe(a: Bytes, b: Bytes) {
    |a| == 0 || (|b| > 0 && (a[0] < b[0] || (a[0] == b[0] && BytesLe(a[1..], b[1..]))))
  }

  predicate Le(a: SortKey, b: SortKey) {
    if a.id != b.id then a.id < b.id
    else if a.rtype != b.rtype then a.rtype < b.rtype
    else if a.number != b.number then a.number < b.number
    else BytesLe(a.name, b.name)
  }

  lemma {:induction false} BytesTotal(a: Bytes, b: Bytes)
    ensures BytesLe(a, b) || BytesLe(b, a)
  {
    if |a| > 0 && |b| > 0 {
      BytesTotal(a[1..], b[1..]);
    }
  }

  lemma {:induction false} BytesTransitive(a: Bytes, b: Bytes, c: Bytes)
    requires BytesLe(a, b) && BytesLe(b, c)
    ensures BytesLe(a, c)
  {
    if |a| > 0 && a[0] == b[0] == c[0] {
      BytesTransitive(a[1..], b[1..], c[1..]);
    }
  }

  lemma LeTransitive(a: SortKey, b: SortKey, c: SortKey)
    requires Le(a, b) && Le(b, c)
    ensures Le(a, c)
  {
    if a.id == b.id == c.id && a.rtype == b.rtype == c.rtype && a.number == b.number == c.number {
      BytesTransitive(a.name, b.name, c.name);
    }
  }

  ghost predicate AllSortable(recs: seq<Record>) {
    forall r :: r in recs ==> Sortable(r)
  }

  ghost predicate Sorted(recs: seq<Record>) {
    AllSortable(recs) && forall i, j :: 0 <= i < j < |recs| ==> Le(KeyOf(recs[i]), KeyOf(recs[j]))
  }

  /** `r` placed behind the records it does not come before. */
  function Insert(s: seq<Record>, r: Record): seq<Record>
    requires Sortable(r) && forall x :: x in s ==> Sortable(x)
  {
    if |s| == 0 then [r]
    else
      var n := |s| - 1;
      if Le(KeyOf(s[n]), KeyOf(r)) then s + [r] else Insert(s[..n], r) + [s[n]]
  }

  /** The stable sort. */
  function Sort(recs: seq<Record>): (r: seq<Record>)
    requires forall x :: x in recs ==> Sortable(x)
    ensures multiset(r) == multiset(recs) && forall x :: x in r ==> Sortable(x)
  {
    if |recs| == 0 then []
    else
      var n := |recs| - 1;
      assert recs == recs[..n] + [recs[n]];
      var s := Sort(recs[..n]);
      InsertPermutes(s, recs[n]);
      SameElements(Insert(s, recs[n]), recs);
      Insert(s, recs[n])
  }

  lemma SameElements(a: seq<Record>, b: seq<Record>)
    requires multiset(a) == multiset(b)
    ensures forall x :: x in a <==> x in b
  {
    forall x
      ensures x in a <==> x in b
    {
      assert x in a <==> x in multiset(a);
      assert x in b <==> x in multiset(b);
    }
  }

  lemma {:induction false} InsertPermutes(s: seq<Record>, r: Record)
    requires Sortable(r) && forall x :: x in s ==> Sortable(x)
    ensures multiset(Insert(s, r)) == multiset(s) + multiset{r}
    decreases |s|
  {
    hide Sortable, KeyOf, Le;
    if |s| > 0 {
      var n := |s| - 1;
      InsertPermutes(s[..n], r);
      assert s == s[..n] + [s[n]];
    }
  }

  lemma {:induction false} InsertSorted(s: seq<Record>, r: Record)
    requires Sorted(s) && Sortable(r)
    ensures Sorted(Insert(s, r))
    decreases |s|
  {
    hide Sortable, KeyOf, Le;
    if |s| > 0 {
      var n := |s| - 1;
      if Le(KeyOf(s[n]), KeyOf(r)) {
        Appended(s, r);
      } else {
        TotalOrder(KeyOf(s[n]), KeyOf(r));
        InsertSorted(s[..n], r);
        InsertPermutes(s[..n], r);
        SameElements(Insert(s[..n], r), s[..n] + [r]);
        LastIsTop(Insert(s[..n], r), s[..n], r, s[n]);
      }
    }
  }

  lemma Appended(s: seq<Record>, r: Record)
    requires Sorted(s) && |s| > 0 && Sortable(r) && Le(KeyOf(s[|s| - 1]), KeyOf(r))
    ensures Sorted(s + [r])
  {
    hide Sortable, KeyOf, Le;
    forall i | 0 <= i < |s| - 1
      ensures Le(KeyOf(s[i]), KeyOf(r))
    {
      LeTransitive(KeyOf(s[i]), KeyOf(s[|s| - 1]), KeyOf(r));
    }
  }

  lemma TotalOrder(a: SortKey, b: SortKey)
    ensures Le(a, b) || Le(b, a)
  {
    BytesTotal(a.name, b.name);
  }

  lemma LastIsTop(t: seq<Record>, s: seq<Record>, r: Record, top: Record)
    requires AllSortable(t) && Sortable(r) && Sortable(top) && AllSortable(s)
    requires forall x :: x in t ==> x in s + [r]
    requires forall x :: x in s ==> Le(KeyOf(x), KeyOf(top))
    requires Le(KeyOf(r), KeyOf(top))
    ensures forall x :: x in t ==> Le(KeyOf(x), KeyOf(top))
  {
    hide Sortable, KeyOf, Le;
  }

  lemma {:induction false} SortSorts(recs: seq<Record>)
    requires AllSortable(recs)
    ensures Sorted(Sort(recs))
  {
    if |recs| > 0 {
      var n := |recs| - 1;
      SortSorts(recs[..n]);
      InsertSorted(Sort(recs[..n]), recs[n]);
    }
  }

  /** The records whose sort key is `k`. */
  ghost function Equals(recs: seq<Record>, k: SortKey): seq<Record>
    requires AllSortable(recs)
  {
    if |recs| == 0 then []
    else
      var n := |recs| - 1;
      Equals(recs[..n], k) + if KeyOf(recs[n]) == k then [recs[n]] else []
  }

  /** The sort is stable: records of equal keys keep their order. */
  lemma {:induction false} SortIsStable(recs: seq<Record>, k: SortKey)
    requires AllSortable(recs)
    ensures Equals(Sort(recs), k) == Equals(recs, k)
  {
    if |recs| > 0 {
      var n := |recs| - 1;
      SortIsStable(recs[..n], k);
      SortSorts(recs[..n]);
      InsertEquals(Sort(recs[..n]), recs[n], k);
    }
  }

  lemma {:induction false} InsertEquals(s: seq<Record>, r: Record, k: SortKey)
    requires Sorted(s) && Sortable(r)
    ensures AllSortable(Insert(s, r))
    ensures Equals(Insert(s, r), k) == Equals(s, k) + if KeyOf(r) == k then [r] else []
    decreases |s|
  {
    hide Sortable, KeyOf, Le, Equals;
    InsertPermutes(s, r);
    SameElements(Insert(s, r), s + [r]);
    if |s| == 0 {
      EqualsPush([], r, k);
      assert [] + [r] == [r] && Insert(s, r) == [r];
    } else {
      var n := |s| - 1;
      var init, top := s[..n], s[n];
      assert s == init + [top];
      if Le(KeyOf(top), KeyOf(r)) {
        EqualsPush(s, r, k);
      } else {
        InsertEquals(init, r, k);
        EqualsPush(Insert(init, r), top, k);
        EqualsPush(init, top, k);
        SelfLe(k);
      }
    }
  }

  lemma EqualsPush(s: seq<Record>, r: Record, k: SortKey)
    requires AllSortable(s + [r])
    ensures AllSortable(s) && Sortable(r)
    ensures Equals(s + [r], k) == Equals(s, k) + if KeyOf(r) == k then [r] else []
  {
    hide Sortable, KeyOf;
    assert (s + [r])[..|s|] == s;
    assert r in s + [r] && forall x :: x in s ==> x in s + [r];
  }

  lemma SelfLe(k: SortKey)
    ensures Le(k, k)
  {
    Reflexive(k.name);
  }

  lemma {:induction false} Reflexive(a: Bytes)
    ensures BytesLe(a, a)
  {
    if |a| > 0 {
      Reflexive(a[1..]);
    }
  }
}
