/** What the checksum of an object is, in terms of its bytes alone: two congruences modulo 2^32 - 1 between
    the words of a valid object, its two checksum words included. */
module FletcherLaw {
  import opened Bytes
  import opened Checksum

  /** The `k`-th 32-bit little-endian word. */
  function WordAt(data: Bytes, k: nat): nat
    requires 4 * k + 4 <= |data|
  {
    (data[4 * k] as int) + 0x100 * (data[4 * k + 1] as int) +
    0x1_0000 * (data[4 * k + 2] as int) + 0x100_0000 * (data[4 * k + 3] as int)
  }

  /** The sum of the whole words from the `k`-th on. */
  function Plain(data: Bytes, k: nat): nat
    requires k <= |data| / 4
    decreases |data| / 4 - k
  {
    if k == |data| / 4 then 0 else WordAt(data, k) + Plain(data, k + 1)
  }

  /** The same with each word counted once for every word from it to the end, and twice more. */
  function Weighted(data: Bytes, k: nat): nat
    requires k <= |data| / 4
    decreases |data| / 4 - k
  {
    if k == |data| / 4 then 0 else WordAt(data, k) * (|data| / 4 - k + 2) + Weighted(data, k + 1)
  }

  lemma WordIsLane(data: Bytes, k: nat)
    requires k < |data| / 4
    ensures Lanes(data)[k] == WordAt(data, k)
  {
    FourBytes(data, 4 * k);
  }

  // ---------- the running sums from the front ----------

  lemma {:induction false} Sum1Front(w: nat, ws: seq<nat>)
    ensures Sum1([w] + ws) == w + Sum1(ws)
  {
    var n := |ws|;
    assert ([w] + ws)[..n] == if n == 0 then [] else [w] + ws[..n - 1];
    if n > 0 {
      Sum1Front(w, ws[..n - 1]);
    }
  }

  lemma {:induction false} Sum2Front(w: nat, ws: seq<nat>)
    ensures Sum2([w] + ws) == w * (|ws| + 1) + Sum2(ws)
  {
    var n := |ws|;
    assert ([w] + ws)[..n] == if n == 0 then [] else [w] + ws[..n - 1];
    Sum1Front(w, ws);
    if n > 0 {
      Sum2Front(w, ws[..n - 1]);
      assert w * n + w == w * (n + 1);
    } else {
      assert Sum2([w]) == Sum2([]) + Sum1([w]);
    }
  }

  lemma {:induction false} SumsFrom(data: Bytes, k: nat)
    requires k <= |data| / 4
    ensures Sum1(Lanes(data)[k..]) == Plain(data, k)
    ensures Sum2(Lanes(data)[k..]) + 2 * Plain(data, k) == Weighted(data, k)
    decreases |data| / 4 - k
  {
    var ls := Lanes(data);
    if k < |data| / 4 {
      var w := WordAt(data, k);
      WordIsLane(data, k);
      assert ls[k..] == [w] + ls[k + 1..];
      Sum1Front(w, ls[k + 1..]);
      Sum2Front(w, ls[k + 1..]);
      SumsFrom(data, k + 1);
      assert w * (|ls| - k) + 2 * w == w * (|ls| - k + 2);
    }
  }

  // ---------- the law ----------

  /** The checksum words `x` and `y` that fit sums `s1` and `s2`, as two congruences. */
  lemma HalvesFit(x: nat, y: nat, s1: nat, s2: nat)
    requires x <= MOD && y <= MOD
    ensures x == Low(s1, s2) && y == High(s1, s2) <==>
              && x > 0 && y > 0
              && (x + y + s1) % MOD == 0
              && (2 * x + y + s2 + 2 * s1) % MOD == 0
  {
    hide Low, High;
    HalvesInRange(s1, s2);
    LowIs(x, s1, s2);
    HighIs(y, s1, s2);
    var p, q := x + s1 + s2, y - s2;
    assert x + y + s1 == p + q;
    assert 2 * x + y + s2 + 2 * s1 == p + (p + q);
    if p % MOD == 0 && q % MOD == 0 {
      Negated(q);
      Difference(p, -q);
      Negated(p + q);
      Difference(p, -(p + q));
    }
    if (p + q) % MOD == 0 && (p + (p + q)) % MOD == 0 {
      Difference(p + (p + q), p + q);
      Difference(p + q, p);
    }
  }

  lemma LowIs(x: nat, s1: nat, s2: nat)
    requires x <= MOD
    ensures x == Low(s1, s2) <==> x > 0 && (x + s1 + s2) % MOD == 0
  {
    var s := s1 + s2;
    var r := s % MOD;
    assert s == MOD * (s / MOD) + r;
    assert x + s == MOD * (s / MOD) + (x + r);
    SameRest(x + s, x + r, s / MOD);
  }

  lemma HighIs(y: nat, s1: nat, s2: nat)
    requires y <= MOD
    ensures y == High(s1, s2) <==> y > 0 && (y - s2) % MOD == 0
  {
    hide High;
    HighIsSum2(s1, s2);
    var r := s2 % MOD;
    assert y - s2 == MOD * -(s2 / MOD) + (y - r);
    SameRest(y - s2, y - r, -(s2 / MOD));
  }

  lemma SameRest(a: int, b: int, k: int)
    requires a == MOD * k + b
    ensures a % MOD == 0 <==> b % MOD == 0
  {
    MultipleOf(k);
    if b % MOD == 0 {
      Negated(b);
      Difference(MOD * k, -b);
    }
    if a % MOD == 0 {
      Difference(a, MOD * k);
    }
  }

  /** An object verifies exactly when neither checksum word is zero and two sums over all its whole words
      vanish modulo 2^32 - 1: the plain sum, and the sum that counts the first word twice, the second once,
      and word `k` of `n` after them `n - k + 2` times. */
  lemma VerifiesIffSumsVanish(data: Bytes)
    requires |data| >= 8
    ensures Verify(data) <==>
              var x, y := WordAt(data, 0), WordAt(data, 1);
              && x > 0 && y > 0
              && (x + y + Plain(data, 2)) % 0xFFFF_FFFF == 0
              && (2 * x + y + Weighted(data, 2)) % 0xFFFF_FFFF == 0
  {
    hide Verify, Sum1, Sum2, Low, High, Plain, Weighted;
    VerifyIsConsistent(data);
    WordIsLane(data, 0);
    WordIsLane(data, 1);
    SumsFrom(data, 2);
    HalvesFit(WordAt(data, 0), WordAt(data, 1), Plain(data, 2), Sum2(Lanes(data)[2..]));
  }

  /** The checksum is the only one that makes the object verify. */
  lemma ChecksumIsUnique(data: Bytes, ck: nat)
    requires |data| >= 8 && ck < U64
    ensures Verify(Splice(data, 0, LE(ck, 8))) <==> ck == Fletcher(data)
  {
    hide Fletcher, Field, LE;
    var b := Splice(data, 0, LE(ck, 8));
    SpliceReads(data, 0, LE(ck, 8));
    assert b[8..] == data[8..];
    SameWords(b, data);
    LE8(ck);
    FieldIs(b, 0, 8, LE(ck, 8));
  }

  lemma SameWords(a: Bytes, b: Bytes)
    requires |a| == |b| >= 8 && a[8..] == b[8..]
    ensures Fletcher(a) == Fletcher(b)
  {
    LanesTail(a, b);
  }

  // ---------- an object of zeros ----------

  lemma {:induction false} ZeroSums(ws: seq<nat>)
    requires forall w :: w in ws ==> w == 0
    ensures Sum1(ws) == 0 && Sum2(ws) == 0
  {
    if |ws| > 0 {
      var n := |ws| - 1;
      assert ws[n] in ws && forall w :: w in ws[..n] ==> w in ws;
      ZeroSums(ws[..n]);
    }
  }

  /** An object of zeros of any length has a checksum of all ones, and so has one too short for data. */
  lemma ZeroObject(data: Bytes)
    requires |data| < 12 || forall i :: 8 <= i < |data| ==> data[i] == 0
    ensures Fletcher(data) == 0xFFFF_FFFF_FFFF_FFFF
  {
    hide Field;
    var ws := Words(data);
    forall w | w in ws
      ensures w == 0
    {
      var k :| 2 <= k < |data| / 4 && w == Lanes(data)[k];
      WordIsLane(data, k);
    }
    ZeroSums(ws);
  }
}
