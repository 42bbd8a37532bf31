/** Looking a child up by name (`lookup_child` in `fs.rs`), on names as the records store them. */
module ChildLookup {
  import opened Bytes
  import opened Hash
  import opened BTree
  import opened BTreeTheory
  import opened NodeWriter
  import opened Records
  import opened Sorting
  import opened Volume
  import opened VolumeTheory
  import opened EndToEnd
  import opened ReadBack

  // ---------- comparing UTF-8 is comparing code points ----------

  /** The first byte settles how many follow. */
  lemma SameLength(x: nat, y: nat)
    requires x < 0x11_0000 && y < 0x11_0000 && Lower(CpUtf8(x)[0]) == Lower(CpUtf8(y)[0])
    ensures CpLen(x) == CpLen(y)
  {
  }

  lemma TwoBytes(x: nat, y: nat)
    requires 0x80 <= x < 0x800 && 0x80 <= y < 0x800
    ensures EqIgnoreCase(CpUtf8(x), CpUtf8(y)) ==> x == y
  {
    var a, b := CpUtf8(x), CpUtf8(y);
    if EqIgnoreCase(a, b) {
      assert Lower(a[0]) == Lower(b[0]) && Lower(a[1]) == Lower(b[1]);
      TwoDigits(x, a[0] - 0xC0, a[1] - 0x80);
      TwoDigits(y, b[0] - 0xC0, b[1] - 0x80);
    }
  }

  lemma TwoDigits(x: nat, p: nat, q: nat)
    requires x < 0x800 && p == x / 0x40 % 0x20 && q == x % 0x40
    ensures x == 0x40 * p + q
  {
  }

  lemma ThreeBytes(x: nat, y: nat)
    requires 0x800 <= x < 0x1_0000 && 0x800 <= y < 0x1_0000
    ensures EqIgnoreCase(CpUtf8(x), CpUtf8(y)) ==> x == y
  {
    var a, b := CpUtf8(x), CpUtf8(y);
    if EqIgnoreCase(a, b) {
      assert Lower(a[0]) == Lower(b[0]) && Lower(a[1]) == Lower(b[1]) && Lower(a[2]) == Lower(b[2]);
      ThreeDigits(x, a[0] - 0xE0, a[1] - 0x80, a[2] - 0x80);
      ThreeDigits(y, b[0] - 0xE0, b[1] - 0x80, b[2] - 0x80);
    }
  }

  lemma ThreeDigits(x: nat, p: nat, q: nat, r: nat)
    requires x < 0x1_0000 && p == x / 0x1000 % 0x10 && q == x / 0x40 % 0x40 && r == x % 0x40
    ensures x == 0x1000 * p + 0x40 * q + r
  {
    var u := x / 0x40;
    assert x == 0x40 * u + r;
    assert x / 0x1000 == u / 0x40 && u == 0x40 * (u / 0x40) + q;
  }

  lemma FourBytes(x: nat, y: nat)
    requires 0x1_0000 <= x < 0x11_0000 && 0x1_0000 <= y < 0x11_0000
    ensures EqIgnoreCase(CpUtf8(x), CpUtf8(y)) ==> x == y
  {
    var a, b := CpUtf8(x), CpUtf8(y);
    if EqIgnoreCase(a, b) {
      assert Lower(a[0]) == Lower(b[0]) && Lower(a[1]) == Lower(b[1]) && Lower(a[2]) == Lower(b[2]) && Lower(a[3]) == Lower(b[3]);
      Digits(x, a[0] - 0xF0, a[1] - 0x80, a[2] - 0x80, a[3] - 0x80);
      Digits(y, b[0] - 0xF0, b[1] - 0x80, b[2] - 0x80, b[3] - 0x80);
    }
  }

  lemma Digits(x: nat, p: nat, q: nat, r: nat, s: nat)
    requires x < 0x11_0000
    requires p == x / 0x4_0000 % 8 && q == x / 0x1000 % 0x40 && r == x / 0x40 % 0x40 && s == x % 0x40
    ensures x == 0x4_0000 * p + 0x1000 * q + 0x40 * r + s
  {
    var u, v := x / 0x40, x / 0x1000;
    assert x == 0x40 * u + s;
    assert v == u / 0x40 && u == 0x40 * v + r;
    assert x / 0x4_0000 == v / 0x40 && v == 0x40 * (v / 0x40) + q;
  }

  /** Encodings of two code points agree up to ASCII case exactly when the code points do. */
  lemma CodePointBytes(x: nat, y: nat)
    requires x < 0x11_0000 && y < 0x11_0000
    ensures EqIgnoreCase(CpUtf8(x), CpUtf8(y)) <==> Lower(x) == Lower(y)
  {
    if EqIgnoreCase(CpUtf8(x), CpUtf8(y)) {
      assert Lower(CpUtf8(x)[0]) == Lower(CpUtf8(y)[0]);
      SameLength(x, y);
      if 0x80 <= x < 0x800 {
        TwoBytes(x, y);
      } else if 0x800 <= x < 0x1_0000 {
        ThreeBytes(x, y);
      } else if 0x1_0000 <= x {
        FourBytes(x, y);
      }
    }
  }

  lemma HeadAndTail(x: nat, y: nat, s: Bytes, t: Bytes)
    requires x < 0x11_0000 && y < 0x11_0000
    ensures EqIgnoreCase(CpUtf8(x) + s, CpUtf8(y) + t) <==> Lower(x) == Lower(y) && EqIgnoreCase(s, t)
  {
    hide CpUtf8, Lower;
    CodePointBytes(x, y);
    var a, b := CpUtf8(x) + s, CpUtf8(y) + t;
    if EqIgnoreCase(a, b) {
      FirstBytes(x, y, s, t);
      SplitEqual(CpUtf8(x), s, CpUtf8(y), t);
    } else if Lower(x) == Lower(y) && EqIgnoreCase(s, t) {
      SplitEqual(CpUtf8(x), s, CpUtf8(y), t);
    }
  }

  lemma FirstBytes(x: nat, y: nat, s: Bytes, t: Bytes)
    requires x < 0x11_0000 && y < 0x11_0000 && EqIgnoreCase(CpUtf8(x) + s, CpUtf8(y) + t)
    ensures |CpUtf8(x)| == |CpUtf8(y)|
  {
    hide CpUtf8, Lower;
    assert |CpUtf8(x)| > 0 && |CpUtf8(y)| > 0;
    assert (CpUtf8(x) + s)[0] == CpUtf8(x)[0] && (CpUtf8(y) + t)[0] == CpUtf8(y)[0];
    SameLength(x, y);
  }

  lemma SplitEqual(a: Bytes, s: Bytes, b: Bytes, t: Bytes)
    requires |a| == |b|
    ensures EqIgnoreCase(a + s, b + t) <==> EqIgnoreCase(a, b) && EqIgnoreCase(s, t)
  {
    hide Lower;
    if EqIgnoreCase(a + s, b + t) {
      assert forall i :: 0 <= i < |a| ==> (a + s)[i] == a[i] && (b + t)[i] == b[i];
      forall i | 0 <= i < |s|
        ensures Lower(s[i]) == Lower(t[i])
      {
        assert (a + s)[|a| + i] == s[i] && (b + t)[|a| + i] == t[i];
      }
    }
  }

  /** Names are equal up to ASCII case exactly when their UTF-8 bytes are. */
  lemma {:induction false} FoldedBytes(a: CodePoints, b: CodePoints)
    requires IsName(a) && IsName(b)
    ensures EqIgnoreCase(Utf8(a), Utf8(b)) <==> EqIgnoreCase(a, b)
    decreases |a|
  {
    hide CpUtf8, Lower, CpLen;
    if |a| > 0 && |b| > 0 {
      FoldedBytes(a[1..], b[1..]);
      HeadAndTail(a[0], b[0], Utf8(a[1..]), Utf8(b[1..]));
      ConsEqual(a, b);
    } else {
      EmptyName(a);
      EmptyName(b);
    }
  }

  lemma EmptyName(a: CodePoints)
    ensures |Utf8(a)| == 0 <==> |a| == 0
  {
  }

  lemma ConsEqual(a: CodePoints, b: CodePoints)
    requires |a| > 0 && |b| > 0
    ensures EqIgnoreCase(a, b) <==> Lower(a[0]) == Lower(b[0]) && EqIgnoreCase(a[1..], b[1..])
  {
    hide Lower;
    if Lower(a[0]) == Lower(b[0]) && EqIgnoreCase(a[1..], b[1..]) {
      forall i | 0 <= i < |a|
        ensures Lower(a[i]) == Lower(b[i])
      {
        if i > 0 {
          assert a[i] == a[1..][i - 1] && b[i] == b[1..][i - 1];
        }
      }
    }
  }

  lemma {:induction false} ExactBytes(a: CodePoints, b: CodePoints)
    requires IsName(a) && IsName(b) && Utf8(a) == Utf8(b)
    ensures a == b
    decreases |a|
  {
    hide CpUtf8, Lower, CpLen;
    EmptyName(a);
    EmptyName(b);
    if |a| > 0 {
      HeadAndTail(a[0], b[0], Utf8(a[1..]), Utf8(b[1..]));
      OneEncoding(a[0], b[0], Utf8(a[1..]), Utf8(b[1..]));
      ExactBytes(a[1..], b[1..]);
      assert a == [a[0]] + a[1..] && b == [b[0]] + b[1..];
    }
  }

  lemma OneEncoding(x: nat, y: nat, s: Bytes, t: Bytes)
    requires x < 0x11_0000 && y < 0x11_0000 && CpUtf8(x) + s == CpUtf8(y) + t && Lower(x) == Lower(y)
    ensures x == y && s == t
  {
    assert (CpUtf8(x) + s)[0] == CpUtf8(x)[0] && (CpUtf8(y) + t)[0] == CpUtf8(y)[0];
    assert x == y;
    assert (CpUtf8(x) + s)[|CpUtf8(x)|..] == s && (CpUtf8(y) + t)[|CpUtf8(y)|..] == t;
  }

  /** A lookup compares stored bytes; it compares names. */
  lemma SameBytesSameName(a: CodePoints, b: CodePoints, caseInsensitive: bool)
    requires IsName(a) && IsName(b)
    ensures SameName(Utf8(a), Utf8(b), caseInsensitive) <==> SameName(a, b, caseInsensitive)
  {
    FoldedBytes(a, b);
    if !caseInsensitive && Utf8(a) == Utf8(b) {
      ExactBytes(a, b);
    }
  }

  // ---------- names a volume takes for one another ----------

  /** The same code point, or an ASCII capital and its small letter. */
  predicate SameLetter(x: nat, y: nat) {
    x == y || (65 <= x <= 90 && y == x + 32) || (65 <= y <= 90 && x == y + 32)
  }

  /** The wanted name is the stored one, letter by letter where case does not count. */
  ghost predicate Answers(name: CodePoints, wanted: CodePoints, anyCase: bool) {
    if anyCase then |name| == |wanted| && forall i :: 0 <= i < |name| ==> SameLetter(name[i], wanted[i])
    else name == wanted
  }

  lemma SameNameAnswers(a: CodePoints, b: CodePoints, anyCase: bool)
    ensures SameName(a, b, anyCase) <==> Answers(a, b, anyCase)
  {
    if anyCase {
      forall i | 0 <= i < |a| && |a| == |b|
        ensures Lower(a[i]) == Lower(b[i]) <==> SameLetter(a[i], b[i])
      {
        FoldedLetter(a[i], b[i]);
      }
    }
  }

  lemma FoldedLetter(x: nat, y: nat)
    ensures Lower(x) == Lower(y) <==> SameLetter(x, y)
  {
  }

  // ---------- an inserted child is found ----------

  /** Entries with one match: that one is found, wherever it lies. */
  lemma {:induction false} OnlyMatch(entries: seq<DirEntry>, name: Bytes, caseInsensitive: bool, e: DirEntry)
    requires e in entries && SameName(e.name, name, caseInsensitive)
    requires forall f :: f in entries && SameName(f.name, name, caseInsensitive) ==> f == e
    ensures FindEntry(entries, name, caseInsensitive) == Some(e)
  {
    hide SameName;
    if entries[0] != e {
      assert entries == [entries[0]] + entries[1..];
      OnlyMatch(entries[1..], name, caseInsensitive, e);
    }
  }

  /** Of several matches the first is found. */
  lemma {:induction false} FirstIsFound(entries: seq<DirEntry>, name: Bytes, caseInsensitive: bool, i: nat)
    requires i < |entries| && SameName(entries[i].name, name, caseInsensitive)
    requires forall j :: 0 <= j < i ==> !SameName(entries[j].name, name, caseInsensitive)
    ensures FindEntry(entries, name, caseInsensitive) == Some(entries[i])
  {
    hide SameName;
    if i > 0 {
      FirstIsFound(entries[1..], name, caseInsensitive, i - 1);
    }
  }

  lemma {:induction false} NoMatch(entries: seq<DirEntry>, name: Bytes, caseInsensitive: bool)
    requires forall f :: f in entries ==> !SameName(f.name, name, caseInsensitive)
    ensures FindEntry(entries, name, caseInsensitive) == None
  {
    hide SameName;
    if |entries| > 0 {
      NoMatch(entries[1..], name, caseInsensitive);
    }
  }

  /** The directory holds exactly these children, on a volume with one of the features that call for hashed
      keys: case-insensitive (bit 0) and normalization-insensitive (bit 3). */
  ghost predicate Directory(v: OpenVolume, mt: Tree, recs: seq<Record>, dirId: nat, kids: seq<ChildSpec>) {
    && HoldsRecords(v, mt, recs) && dirId < P60 && (v.incompat % 2 == 1 || v.incompat / 8 % 2 == 1)
    && (forall i :: 0 <= i < |kids| ==> kids[i].Typed() && IsName(kids[i].name))
    && SelectRecords(recs, dirId, APFS_TYPE_DIR_REC) == DrecsOf(dirId, kids, v.incompat % 2 == 1)
  }

  /** What a listing shows is a child, and every child is shown. */
  lemma ListedChildren(v: OpenVolume, mt: Tree, recs: seq<Record>, dirId: nat, kids: seq<ChildSpec>)
    requires Directory(v, mt, recs, dirId, kids)
    ensures DirQuery(v, dirId).Ok?
    ensures forall f :: f in DirQuery(v, dirId).value ==> exists i :: 0 <= i < |kids| && f == kids[i].Listed()
    ensures forall i :: 0 <= i < |kids| ==> kids[i].Listed() in DirQuery(v, dirId).value
  {
    hide HoldsRecords, DirQuery, SelectRecords, DrecsOf;
    ListingReadsBack(v, mt, recs, dirId, kids, v.CaseInsensitive());
    var entries, xs := DirQuery(v, dirId).value, seq(|kids|, i requires 0 <= i < |kids| => kids[i].Listed());
    forall f | f in entries
      ensures exists i :: 0 <= i < |kids| && f == kids[i].Listed()
    {
      assert f in multiset(entries) && f in multiset(xs);
      var i :| 0 <= i < |xs| && xs[i] == f;
    }
    forall i | 0 <= i < |kids|
      ensures kids[i].Listed() in entries
    {
      assert xs[i] in multiset(xs);
      assert xs[i] in multiset(entries);
    }
  }

  /** An inserted child is found by its own name, and on a case-insensitive volume by any that differs in
      ASCII case alone, when no other child answers to it; a name no child answers to is not found. */
  lemma ChildReadsBack(v: OpenVolume, mt: Tree, recs: seq<Record>, dirId: nat, kids: seq<ChildSpec>, name: CodePoints)
    requires Directory(v, mt, recs, dirId, kids) && IsName(name)
    ensures forall i :: 0 <= i < |kids| && Answers(kids[i].name, name, v.incompat % 2 == 1) &&
                        (forall j :: 0 <= j < |kids| && j != i ==> !Answers(kids[j].name, name, v.incompat % 2 == 1)) ==>
              ChildQuery(v, dirId, Utf8(name)) == Ok(kids[i].Listed())
    ensures (forall i :: 0 <= i < |kids| ==> !Answers(kids[i].name, name, v.incompat % 2 == 1)) ==>
              ChildQuery(v, dirId, Utf8(name)) == Err(NotFound)
  {
    hide Directory, DirQuery, SameName, FindEntry, Answers;
    var ci := v.incompat % 2 == 1;
    ListedChildren(v, mt, recs, dirId, kids);
    var entries := DirQuery(v, dirId).value;
    forall i | 0 <= i < |kids|
      ensures SameName(kids[i].Listed().name, Utf8(name), ci) <==> Answers(kids[i].name, name, ci)
    {
      KidIsName(v, mt, recs, dirId, kids, i);
      SameBytesSameName(kids[i].name, name, ci);
      SameNameAnswers(kids[i].name, name, ci);
    }
    forall i | 0 <= i < |kids| && Answers(kids[i].name, name, ci) &&
               forall j :: 0 <= j < |kids| && j != i ==> !Answers(kids[j].name, name, ci)
      ensures ChildQuery(v, dirId, Utf8(name)) == Ok(kids[i].Listed())
    {
      OnlyMatch(entries, Utf8(name), ci, kids[i].Listed());
    }
    if forall i :: 0 <= i < |kids| ==> !Answers(kids[i].name, name, ci) {
      NoMatch(entries, Utf8(name), ci);
    }
  }

  const CAPITALS: CodePoints := [0x52, 0x45, 0x41, 0x44, 0x4D, 0x45]
  const SMALL: CodePoints := [0x72, 0x65, 0x61, 0x64, 0x6D, 0x65]

  /** A lone child stored as "README" is what "readme" finds on a case-insensitive volume, and nothing on
      one that is not. */
  lemma ReadmeIsFound(v: OpenVolume, mt: Tree, recs: seq<Record>, dirId: nat, kid: ChildSpec)
    requires Directory(v, mt, recs, dirId, [kid]) && kid.name == CAPITALS
    ensures ChildQuery(v, dirId, Utf8(SMALL)) == if v.incompat % 2 == 1 then Ok(kid.Listed()) else Err(NotFound)
  {
    hide Directory, ChildQuery, Utf8, Answers;
    ReadmeAnswers();
    ChildReadsBack(v, mt, recs, dirId, [kid], SMALL);
    assert [kid][0].name == CAPITALS;
  }

  lemma ReadmeAnswers()
    ensures Answers(CAPITALS, SMALL, true) && !Answers(CAPITALS, SMALL, false) && IsName(SMALL)
  {
    assert CAPITALS[0] != SMALL[0];
  }

  lemma KidIsName(v: OpenVolume, mt: Tree, recs: seq<Record>, dirId: nat, kids: seq<ChildSpec>, i: nat)
    requires Directory(v, mt, recs, dirId, kids) && i < |kids|
    ensures IsName(kids[i].name)
  {
  }

  // ---------- filtering by the stored hash ----------

  /** The records whose key stores the field `want`. */
  ghost function WithField(es: seq<Entry>, want: nat): seq<Entry> {
    if |es| == 0 then []
    else (if ReadLE(es[0].key, 8, 4) == Ok(want) then [es[0]] else []) + WithField(es[1..], want)
  }

  /** The fast path the source plans: parse and compare only the records whose stored hash is the name's. */
  ghost function HashedChildQuery(v: OpenVolume, es: seq<Entry>, name: CodePoints): Result<DirEntry> {
    var entries :- ParseAll(DirEntryOf(v.Hashed()), WithField(es, NameLenAndHash(name, v.CaseInsensitive())));
    var found := FindEntry(entries, Utf8(name), v.CaseInsensitive());
    if found.None? then Err(NotFound) else Ok(found.value)
  }

  /** A record built for a child of the directory. */
  ghost predicate ChildRecord(e: Entry, dirId: nat, kids: seq<ChildSpec>, caseFold: bool)
    requires dirId < P60
  {
    exists i :: 0 <= i < |kids| && kids[i].Typed() && IsName(kids[i].name) &&
                e == EntryOf(BuildDrec(dirId, kids[i].name, caseFold, kids[i].fileId, kids[i].dtype, kids[i].times))
  }

  lemma FieldRange(name: CodePoints, caseFold: bool)
    ensures NameLenAndHash(name, caseFold) < U32
  {
    hide NameHash;
    BitsBelow(NameHash(name, caseFold)[..22]);
    assert Pow2(22) == 0x40_0000 by {
      assert Pow2(11) == 2048;
      Pow2Twice(11);
    }
  }

  lemma {:induction false} Pow2Twice(n: nat)
    ensures Pow2(2 * n) == Pow2(n) * Pow2(n)
  {
    if n > 0 {
      Pow2Twice(n - 1);
      assert Pow2(2 * n) == 2 * (2 * Pow2(2 * n - 2));
      Squares(Pow2(n - 1));
    }
  }

  lemma Squares(p: nat)
    ensures 4 * (p * p) == (2 * p) * (2 * p)
  {
  }

  lemma {:induction false} BitsBelow(b: Bits)
    ensures FromBits(b) < Pow2(|b|)
  {
    if |b| > 0 {
      BitsBelow(b[1..]);
    }
  }

  /** The field stored in a built key, and what the record parses to. */
  lemma StoredField(dirId: nat, k: ChildSpec, caseFold: bool)
    requires dirId < P60 && k.Typed()
    ensures var e := EntryOf(BuildDrec(dirId, k.name, caseFold, k.fileId, k.dtype, k.times));
            && ReadLE(e.key, 8, 4) == Ok(NameLenAndHash(k.name, caseFold))
            && DirEntryOf(true)(e) == Ok(k.Listed())
  {
    hide Field, LE, NameLenAndHash, JkeyHeader, ParseDrec, Utf8;
    var field := NameLenAndHash(k.name, caseFold);
    var pre, post := Jkey(dirId, APFS_TYPE_DIR_REC), Utf8(k.name) + [0];
    Field4At(pre, field, post);
    assert BuildDrec(dirId, k.name, caseFold, k.fileId, k.dtype, k.times).key == pre + LE(field, 4) + post;
    FieldRange(k.name, caseFold);
    DrecValueRoundTrip(dirId, k.name, caseFold, k.fileId, k.dtype, k.times);
  }

  /** Filtering child records by hash first leaves the entry the linear scan finds. */
  lemma {:induction false} FilterFindsSame(es: seq<Entry>, dirId: nat, kids: seq<ChildSpec>, name: CodePoints, caseFold: bool)
    requires dirId < P60 && IsName(name) && forall e :: e in es ==> ChildRecord(e, dirId, kids, caseFold)
    ensures var all := ParseAll(DirEntryOf(true), es);
            var few := ParseAll(DirEntryOf(true), WithField(es, NameLenAndHash(name, caseFold)));
            all.Ok? && few.Ok? && FindEntry(few.value, Utf8(name), caseFold) == FindEntry(all.value, Utf8(name), caseFold)
  {
    hide NameLenAndHash, ReadLE, Utf8, SameName, BuildDrec;
    if |es| > 0 {
      FilterFindsSame(es[1..], dirId, kids, name, caseFold);
      assert es[0] in es;
      var i :| 0 <= i < |kids| && kids[i].Typed() && IsName(kids[i].name) &&
               es[0] == EntryOf(BuildDrec(dirId, kids[i].name, caseFold, kids[i].fileId, kids[i].dtype, kids[i].times));
      StoredField(dirId, kids[i], caseFold);
      SameBytesSameName(kids[i].name, name, caseFold);
      if SameName(kids[i].name, name, caseFold) {
        FoldCongruence(kids[i].name, name, caseFold);
      }
      FilterStep(es, NameLenAndHash(name, caseFold), Utf8(name), caseFold, kids[i].Listed());
    }
  }

  lemma FilterStep(es: seq<Entry>, want: nat, name: Bytes, caseFold: bool, first: DirEntry)
    requires |es| > 0 && DirEntryOf(true)(es[0]) == Ok(first)
    requires ReadLE(es[0].key, 8, 4).Ok?
    requires SameName(first.name, name, caseFold) ==> ReadLE(es[0].key, 8, 4) == Ok(want)
    requires var all, few := ParseAll(DirEntryOf(true), es[1..]), ParseAll(DirEntryOf(true), WithField(es[1..], want));
             all.Ok? && few.Ok? && FindEntry(few.value, name, caseFold) == FindEntry(all.value, name, caseFold)
    ensures var all, few := ParseAll(DirEntryOf(true), es), ParseAll(DirEntryOf(true), WithField(es, want));
            all.Ok? && few.Ok? && FindEntry(few.value, name, caseFold) == FindEntry(all.value, name, caseFold)
  {
    hide ReadLE, SameName, DirEntryOf;
    var parse := DirEntryOf(true);
    var all, few := ParseAll(parse, es[1..]).value, ParseAll(parse, WithField(es[1..], want)).value;
    assert ParseAll(parse, es) == Ok([first] + all);
    assert ([first] + all)[1..] == all && ([first] + few)[1..] == few;
    var rest := WithField(es[1..], want);
    if ReadLE(es[0].key, 8, 4) == Ok(want) {
      assert WithField(es, want) == [es[0]] + rest;
      assert ([es[0]] + rest)[1..] == rest;
    } else {
      assert WithField(es, want) == [] + rest == rest;
    }
  }

  /** On a stored directory the hash filter answers every lookup as the linear scan does. */
  lemma HashedLookupAgrees(v: OpenVolume, mt: Tree, recs: seq<Record>, dirId: nat, kids: seq<ChildSpec>, name: CodePoints)
    requires Directory(v, mt, recs, dirId, kids) && IsName(name)
    ensures HashedChildQuery(v, Select(EntriesOf(Sort(recs)), dirId, APFS_TYPE_DIR_REC), name) ==
            ChildQuery(v, dirId, Utf8(name))
  {
    hide DirQuery, FindEntry, SameName, FsTree, Sortable, ReadLE, DirEntryOf, BuildDrec, SelectRecords, Select, ParseAll, WithField;
    var ci := v.CaseInsensitive();
    var es := Select(EntriesOf(Sort(recs)), dirId, APFS_TYPE_DIR_REC);
    var found, built := SelectRecords(Sort(recs), dirId, APFS_TYPE_DIR_REC), DrecsOf(dirId, kids, ci);
    SelectSorted(recs, dirId, APFS_TYPE_DIR_REC);
    SelectEntries(Sort(recs), dirId, APFS_TYPE_DIR_REC);
    SameElements(found, built);
    forall e | e in es
      ensures ChildRecord(e, dirId, kids, ci)
    {
      var j :| 0 <= j < |found| && e == EntryOf(found[j]);
      assert found[j] in built;
      var i :| 0 <= i < |kids| && built[i] == found[j];
    }
    FilterFindsSame(es, dirId, kids, name, ci);
    ListingIsSelect(v, mt, Leaf(EntriesOf(Sort(recs))), dirId);
  }
}
