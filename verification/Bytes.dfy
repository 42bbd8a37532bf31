/** Bytes, little-endian fields and the result types every other module uses. */
module Bytes {

  type byte = b: int | 0 <= b < 256
  type Bytes = seq<byte>

  datatype Option<+T> = None | Some(value: T)

  /** The kinds of `crate::Error`, plus `Panic` for an operation that aborts the
      program (an index out of range, an overflow, a failed `assert!`). */
  datatype Error =
    | Io
    | Parse
    | BadMagic
    | BadChecksum(block: nat)
    | OmapMiss(oid: nat, xid: nat)
    | NotFound
    | IsADirectory
    | Unsupported
    | Encrypted
    | Corrupt
    | Panic

  datatype Result<+T> = Ok(value: T) | Err(error: Error) {
    predicate IsFailure() {
      Err?
    }

    function PropagateFailure<U>(): Result<U>
      requires Err?
    {
      Err(error)
    }

    function Extract(): T
      requires Ok?
    {
      value
    }
  }

  const U16 := 0x1_0000
  const U32 := 0x1_0000_0000
  const U64 := 0x1_0000_0000_0000_0000

  function Min(a: nat, b: nat): nat {
    if a < b then a else b
  }

  function Max(a: nat, b: nat): nat {
    if a < b then b else a
  }

  function Pow2(n: nat): (r: int)
    ensures r > 0
  {
    if n == 0 then 1 else 2 * Pow2(n - 1)
  }

  function Pow256(n: nat): nat {
    if n == 0 then 1 else 256 * Pow256(n - 1)
  }

  lemma Pow256Sizes()
    ensures Pow256(1) == 256 && Pow256(2) == U16 && Pow256(4) == U32 && Pow256(8) == U64
  {
    assert Pow256(3) == 0x100_0000;
    assert Pow256(5) == 256 * Pow256(4) && Pow256(6) == 256 * Pow256(5);
    assert Pow256(7) == 256 * Pow256(6) && Pow256(8) == 256 * Pow256(7);
  }

  /** `to_le_bytes` of the low `8n` bits of `v`: a narrowing `as` cast is the same call. */
  function LE(v: nat, n: nat): (s: Bytes)
    ensures |s| == n
  {
    if n == 0 then [] else [v % 256] + LE(v / 256, n - 1)
  }

  /** The little-endian number in the `n` bytes at `pos`. */
  function Field(s: Bytes, pos: nat, n: nat): nat
    requires pos + n <= |s|
    decreases n, pos, s
  {
    if n == 0 then 0 else s[pos] + 256 * Field(s, pos + 1, n - 1)
  }

  /** `from_le_bytes`. */
  function FromLE(s: Bytes): nat {
    Field(s, 0, |s|)
  }

  function BE(v: nat, n: nat): (s: Bytes)
    ensures |s| == n
  {
    if n == 0 then [] else BE(v / 256, n - 1) + [v % 256]
  }

  function FromBE(s: Bytes): nat {
    if |s| == 0 then 0 else 256 * FromBE(s[..|s| - 1]) + s[|s| - 1]
  }

  lemma {:induction false} FieldBound(s: Bytes, pos: nat, n: nat)
    requires pos + n <= |s|
    ensures Field(s, pos, n) < Pow256(n)
    decreases n
  {
    if n > 0 {
      FieldBound(s, pos + 1, n - 1);
    }
  }

  /** Equal bytes read as equal fields. */
  lemma {:induction false} SameField(s: Bytes, p: nat, t: Bytes, q: nat, n: nat)
    requires p + n <= |s| && q + n <= |t| && s[p..p + n] == t[q..q + n]
    ensures Field(s, p, n) == Field(t, q, n)
    decreases n
  {
    if n > 0 {
      var x, y := s[p..p + n], t[q..q + n];
      assert x[0] == s[p] && y[0] == t[q];
      assert s[p + 1..p + n] == x[1..] && t[q + 1..q + n] == y[1..];
      SameField(s, p + 1, t, q + 1, n - 1);
    }
  }

  lemma SubSlice(b: Bytes, lo: nat, hi: nat, i: nat, j: nat)
    requires lo <= hi <= |b| && i <= j <= hi - lo
    ensures b[lo..hi][i..j] == b[lo + i..lo + j]
  {
    var x, y := b[lo..hi][i..j], b[lo + i..lo + j];
    assert |x| == |y|;
    assert forall k :: 0 <= k < |x| ==> x[k] == y[k];
  }

  /** A field of a slice is a field of the whole. */
  lemma SliceField(s: Bytes, lo: nat, hi: nat, pos: nat, n: nat)
    requires lo <= hi <= |s| && pos + n <= hi - lo
    ensures Field(s[lo..hi], pos, n) == Field(s, lo + pos, n)
  {
    SubSlice(s, lo, hi, pos, pos + n);
    SameField(s[lo..hi], pos, s, lo + pos, n);
  }

  /** A field that holds the bytes `w` has their value. */
  lemma FieldIs(s: Bytes, pos: nat, n: nat, w: Bytes)
    requires pos + n <= |s| && s[pos..pos + n] == w
    ensures Field(s, pos, n) == FromLE(w)
  {
    assert w[0..n] == w;
    SameField(s, pos, w, 0, n);
  }

  lemma ModSplit(v: nat, p: nat)
    requires p > 0
    ensures v % (256 * p) == v % 256 + 256 * ((v / 256) % p)
  {
    var q := v / 256;
    var r := q % p;
    assert q == p * (q / p) + r;
    assert v == 256 * q + v % 256;
    assert v == (256 * p) * (q / p) + (256 * r + v % 256);
    assert 256 * r + v % 256 < 256 * p by {
      assert r + 1 <= p;
      assert 256 * (r + 1) <= 256 * p;
    }
    DivModUnique(v, 256 * p, q / p, 256 * r + v % 256);
  }

  lemma DivModUnique(v: nat, d: nat, q: nat, r: nat)
    requires d > 0 && r < d && v == d * q + r
    ensures v / d == q && v % d == r
  {
    var q' := v / d;
    assert v == d * q' + v % d;
    assert d * (q - q') == v % d - r;
    MulAtLeast(d, q - q');
  }

  lemma Halved(v: nat, p: nat)
    requires p > 0
    ensures v / 2 / p == v / (2 * p)
  {
    var q := v / 2;
    var m, r := q / p, q % p;
    assert q == p * m + r;
    assert (2 * p) * m == 2 * (p * m);
    DivModUnique(v, 2 * p, m, 2 * r + v % 2);
  }

  lemma MulAtLeast(d: int, k: int)
    requires d >= 0
    ensures k >= 1 ==> d * k >= d
    ensures k <= -1 ==> d * k <= -d
  {
    if k >= 1 {
      assert d * k == d + d * (k - 1);
    } else {
      assert d * k == -d + d * (k + 1);
    }
  }

  /** Decoding an encoded field gives the value back modulo its width. */
  lemma {:induction false} FromLEofLE(v: nat, n: nat)
    ensures Pow256(n) > 0
    ensures FromLE(LE(v, n)) == v % Pow256(n)
  {
    if n > 0 {
      FromLEofLE(v / 256, n - 1);
      ModSplit(v, Pow256(n - 1));
      assert LE(v, n)[1..n] == LE(v / 256, n - 1)[0..n - 1];
      SameField(LE(v, n), 1, LE(v / 256, n - 1), 0, n - 1);
    }
  }

  lemma {:induction false} FromBEofBE(v: nat, n: nat)
    ensures Pow256(n) > 0
    ensures FromBE(BE(v, n)) == v % Pow256(n)
  {
    if n > 0 {
      FromBEofBE(v / 256, n - 1);
      ModSplit(v, Pow256(n - 1));
      assert BE(v, n)[..n - 1] == BE(v / 256, n - 1);
    }
  }

  /** A field of `n` bytes, `m` being 256^n. */
  lemma LEField(v: nat, n: nat, m: nat)
    requires m == Pow256(n)
    ensures m > 0 && FromLE(LE(v, n)) == v % m
  {
    FromLEofLE(v, n);
  }

  lemma LE2(v: nat)
    ensures FromLE(LE(v, 2)) == v % U16
  {
    Pow256Sizes();
    LEField(v, 2, U16);
  }

  lemma LE4(v: nat)
    ensures FromLE(LE(v, 4)) == v % U32
  {
    Pow256Sizes();
    LEField(v, 4, U32);
  }

  lemma LE8(v: nat)
    ensures FromLE(LE(v, 8)) == v % U64
  {
    Pow256Sizes();
    LEField(v, 8, U64);
  }

  lemma BE4(v: nat)
    ensures FromBE(BE(v, 4)) == v % U32
  {
    Pow256Sizes();
    FromBEofBE(v, 4);
  }

  /** A part of a concatenation, and the number it holds. */
  lemma PartAt(pre: Bytes, w: Bytes, post: Bytes)
    ensures (pre + w + post)[|pre|..|pre| + |w|] == w
    ensures Field(pre + w + post, |pre|, |w|) == FromLE(w)
  {
    var s := pre + w + post;
    assert s[|pre|..|pre| + |w|] == w;
    FieldIs(s, |pre|, |w|, w);
  }

  /** A little-endian field of 2, 4 or 8 bytes behind a prefix. */
  lemma Field2At(pre: Bytes, v: nat, post: Bytes)
    ensures Field(pre + LE(v, 2) + post, |pre|, 2) == v % U16
  {
    PartAt(pre, LE(v, 2), post);
    LE2(v);
  }

  lemma Field4At(pre: Bytes, v: nat, post: Bytes)
    ensures Field(pre + LE(v, 4) + post, |pre|, 4) == v % U32
  {
    PartAt(pre, LE(v, 4), post);
    LE4(v);
  }

  lemma Field8At(pre: Bytes, v: nat, post: Bytes)
    ensures Field(pre + LE(v, 8) + post, |pre|, 8) == v % U64
  {
    PartAt(pre, LE(v, 8), post);
    LE8(v);
  }

  /** A bounds-checked read of an `n`-byte field, as `SliceReader::at(s, pos)?.uN()?` does it. */
  function ReadLE(s: Bytes, pos: nat, n: nat): Result<nat> {
    if pos + n <= |s| then Ok(Field(s, pos, n)) else Err(Parse)
  }

  /** `v` overwritten at `pos` by `w`. */
  function Splice(v: Bytes, pos: nat, w: Bytes): (r: Bytes)
    requires pos + |w| <= |v|
    ensures |r| == |v|
  {
    v[..pos] + w + v[pos + |w|..]
  }

  lemma SpliceReads(v: Bytes, pos: nat, w: Bytes)
    requires pos + |w| <= |v|
    ensures Splice(v, pos, w)[pos..pos + |w|] == w
    ensures forall lo, hi :: 0 <= lo <= hi <= |v| && (hi <= pos || pos + |w| <= lo)
              ==> Splice(v, pos, w)[lo..hi] == v[lo..hi]
  {
  }

  /** `b` is `a` with `w` written at `pos`: `w` reads back and every part clear of it is unchanged. */
  ghost predicate Patched(a: Bytes, b: Bytes, pos: nat, w: Bytes) {
    && |a| == |b| && pos + |w| <= |a|
    && b[pos..pos + |w|] == w
    && forall lo, hi :: 0 <= lo <= hi <= |a| && (hi <= pos || pos + |w| <= lo) ==> b[lo..hi] == a[lo..hi]
  }

  lemma PatchIsSplice(a: Bytes, b: Bytes, pos: nat, w: Bytes)
    requires pos + |w| <= |a|
    ensures Patched(a, b, pos, w) <==> b == Splice(a, pos, w)
  {
    SpliceReads(a, pos, w);
    if Patched(a, b, pos, w) {
      assert b[0..pos] == a[0..pos] && b[pos + |w|..|a|] == a[pos + |w|..|a|];
      assert b == b[0..pos] + b[pos..pos + |w|] + b[pos + |w|..|a|];
    }
  }

  function Zeros(n: nat): (r: Bytes)
    ensures |r| == n
  {
    seq(n, _ => 0)
  }
}
