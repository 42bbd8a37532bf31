/** The name hash as division of polynomials with coefficients modulo 2. A polynomial is a string of bits,
    highest power first; the generator is written by its exponents (section 12.1 of RFC 3720). */
module CrcPolynomial {
  import opened Bytes
  import opened Checksum
  import opened Hash

  /** The exponents of the generator of CRC-32C. */
  const EXPONENTS: set<nat> := {32, 28, 27, 26, 25, 23, 22, 20, 19, 18, 14, 13, 11, 10, 9, 8, 6, 0}

  function Generator(): (g: Bits)
    ensures |g| == 33
  {
    seq(33, i requires 0 <= i < 33 => 32 - i in EXPONENTS)
  }

  /** The generator, or nothing, times x^n. */
  function Row(b: bool, n: nat): (r: Bits)
    ensures |r| == n + 33
  {
    if b then Generator() + Falses(n) else Falses(n + 33)
  }

  /** The product with the generator, by long multiplication. */
  function Times(q: Bits): (r: Bits)
    ensures |r| == |q| + 32
  {
    if |q| == 0 then Falses(32)
    else Xor(Row(q[0], |q| - 1), [false] + Times(q[1..]))
  }

  /** `r`, of degree below 32, is `a` less a multiple of the generator. */
  ghost predicate IsRemainder(a: Bits, r: Bits) {
    |a| >= 32 == |r| && exists q: Bits :: |q| == |a| - 32 && a == Xor(Times(q), Falses(|q|) + r)
  }

  /** The bits of a byte as the checksum takes them: low bit first. */
  function ByteBits(b: byte): (r: Bits)
    ensures |r| == 8
  {
    [b % 2 == 1, b / 2 % 2 == 1, b / 4 % 2 == 1, b / 8 % 2 == 1,
     b / 16 % 2 == 1, b / 32 % 2 == 1, b / 64 % 2 == 1, b / 128 % 2 == 1]
  }

  function Message(data: Bytes): (r: Bits)
    ensures |r| == 8 * |data|
  {
    if |data| == 0 then [] else ByteBits(data[0]) + Message(data[1..])
  }

  /** The message times x^32, its first 32 coefficients changed by those of the seed. */
  function Seeded(seed: Bits, m: Bits): (r: Bits)
    requires |seed| == 32
    ensures |r| == |m| + 32
  {
    Xor(seed + Falses(|m|), m + Falses(32))
  }

  // ---------- a remainder is unique ----------

  lemma XorFalses(a: Bits, b: Bits)
    requires |a| == |b| && b == Falses(|a|)
    ensures Xor(a, b) == a && Xor(b, a) == a
  {
  }

  lemma RowHead(b: bool, n: nat)
    ensures Row(b, n)[0] == b
  {
    assert Generator()[0];
  }

  lemma TimesStep(q: Bits)
    requires |q| > 0
    ensures Times(q) == Xor(Row(q[0], |q| - 1), [false] + Times(q[1..]))
  {
    hide Row, Xor;
  }

  lemma HeadOfProduct(q: Bits)
    requires |q| > 0
    ensures Times(q)[0] == q[0]
  {
    hide Row, Times;
    TimesStep(q);
    RowHead(q[0], |q| - 1);
    assert !([false] + Times(q[1..]))[0];
  }

  lemma {:induction false} QuotientIsUnique(p: Bits, q: Bits, r: Bits, s: Bits)
    requires |p| == |q| && |r| == |s| == 32 && Xor(Times(p), Falses(|p|) + r) == Xor(Times(q), Falses(|q|) + s)
    ensures p == q && r == s
  {
    hide Times;
    var a, b := Xor(Times(p), Falses(|p|) + r), Xor(Times(q), Falses(|q|) + s);
    if |p| == 0 {
      forall i | 0 <= i < 32
        ensures r[i] == s[i]
      {
        assert a[i] == (Times(p)[i] != r[i]) && b[i] == (Times(q)[i] != s[i]);
      }
    } else {
      HeadOfProduct(p);
      HeadOfProduct(q);
      assert a[0] == Times(p)[0] && b[0] == Times(q)[0];
      TailsAgree(p, q, r, s);
      QuotientIsUnique(p[1..], q[1..], r, s);
      assert p == [p[0]] + p[1..] && q == [q[0]] + q[1..];
    }
  }

  lemma TailsAgree(p: Bits, q: Bits, r: Bits, s: Bits)
    requires |p| == |q| > 0 && |r| == |s| == 32 && p[0] == q[0]
    requires Xor(Times(p), Falses(|p|) + r) == Xor(Times(q), Falses(|q|) + s)
    ensures Xor(Times(p[1..]), Falses(|p| - 1) + r) == Xor(Times(q[1..]), Falses(|q| - 1) + s)
  {
    hide Row, Times;
    var n := |p| - 1;
    var a, b := Xor(Times(p), Falses(n + 1) + r), Xor(Times(q), Falses(n + 1) + s);
    var x, y := Xor(Times(p[1..]), Falses(n) + r), Xor(Times(q[1..]), Falses(n) + s);
    forall i | 0 <= i < n + 32
      ensures x[i] == y[i]
    {
      ProductAt(p, i);
      ProductAt(q, i);
      assert (Falses(n + 1) + r)[i + 1] == (Falses(n) + r)[i];
      assert (Falses(n + 1) + s)[i + 1] == (Falses(n) + s)[i];
      assert a[i + 1] == b[i + 1];
    }
  }

  lemma ProductAt(q: Bits, i: nat)
    requires |q| > 0 && i < |q| + 31
    ensures Times(q)[i + 1] == (Row(q[0], |q| - 1)[i + 1] != Times(q[1..])[i])
  {
    hide Row, Times, Xor;
    TimesStep(q);
    XorShifted(Row(q[0], |q| - 1), Times(q[1..]), i);
  }

  lemma XorShifted(a: Bits, b: Bits, i: nat)
    requires |a| == |b| + 1 && i < |b|
    ensures Xor(a, [false] + b)[i + 1] == (a[i + 1] != b[i])
  {
  }

  /** Only one string of 32 bits is the remainder. */
  lemma RemainderIsUnique(a: Bits, r: Bits, s: Bits)
    requires IsRemainder(a, r) && IsRemainder(a, s)
    ensures r == s
  {
    hide Times;
    var p :| |p| == |a| - 32 && a == Xor(Times(p), Falses(|p|) + r);
    var q :| |q| == |a| - 32 && a == Xor(Times(q), Falses(|q|) + s);
    QuotientIsUnique(p, q, r, s);
  }

  // ---------- the register divides ----------

  lemma {:induction false} BitOf(v: nat, n: nat, k: nat)
    requires k < n
    ensures ToBits(v, n)[k] == (v / Pow2(k) % 2 == 1)
  {
    if k > 0 {
      BitOf(v / 2, n - 1, k - 1);
      Halved(v, Pow2(k - 1));
    }
  }

  lemma ByteIsBits(b: byte)
    ensures ToBits(b, 8) == ByteBits(b)
  {
    hide ToBits;
    Pow2Small();
    forall k | 0 <= k < 8
      ensures ToBits(b, 8)[k] == ByteBits(b)[k]
    {
      BitOf(b, 8, k);
    }
  }

  lemma FourBytesOfBits(a: byte, b: byte, c: byte, d: byte)
    ensures ToBits(a + 0x100 * (b + 0x100 * (c + 0x100 * (d as int))), 32) == ByteBits(a) + ByteBits(b) + ByteBits(c) + ByteBits(d)
  {
    hide ToBits, ByteBits;
    var high := c + 0x100 * (d as int);
    TwoBytesOfBits(a, b);
    TwoBytesOfBits(c, d);
    assert Pow2(16) == 0x1_0000 by {
      assert Pow2(8) == 256;
    }
    ToBitsParts(a + 0x100 * (b as int), high, 16, 16);
  }

  lemma TwoBytesOfBits(a: byte, b: byte)
    ensures ToBits(a + 0x100 * (b as int), 16) == ByteBits(a) + ByteBits(b)
  {
    hide ToBits, ByteBits;
    assert Pow2(8) == 256;
    ToBitsParts(a, b, 8, 8);
    ByteIsBits(a);
    ByteIsBits(b);
  }

  /** The constant of the code is the generator without its leading term, lowest power last. */
  lemma PolyIsGenerator()
    ensures Poly() == Generator()[1..]
  {
    hide ToBits, ByteBits;
    FourBytesOfBits(0x78, 0x3B, 0xF6, 0x82);
    GeneratorBytes();
  }

  lemma GeneratorBytes()
    ensures Generator()[1..] == ByteBits(0x78) + ByteBits(0x3B) + ByteBits(0xF6) + ByteBits(0x82)
  {
    hide Generator, ByteBits;
    GeneratorEnds();
    GeneratorMiddle();
    var g := Generator()[1..];
    assert g == g[0..8] + g[8..16] + g[16..24] + g[24..32];
  }

  lemma GeneratorEnds()
    ensures Generator()[1..][0..8] == ByteBits(0x78) && Generator()[1..][24..32] == ByteBits(0x82)
  {
    EightBits(0, ByteBits(0x78));
    EightBits(24, ByteBits(0x82));
  }

  lemma GeneratorMiddle()
    ensures Generator()[1..][8..16] == ByteBits(0x3B) && Generator()[1..][16..24] == ByteBits(0xF6)
  {
    EightBits(8, ByteBits(0x3B));
    EightBits(16, ByteBits(0xF6));
  }

  lemma EightBits(k: nat, w: Bits)
    requires k <= 24 && |w| == 8
    requires forall j :: 0 <= j < 8 ==> w[j] == (31 - k - j in EXPONENTS)
    ensures Generator()[1..][k..k + 8] == w
  {
    var g := Generator()[1..];
    forall j | 0 <= j < 8
      ensures g[k..k + 8][j] == w[j]
    {
      assert g[k..k + 8][j] == g[k + j] == Generator()[k + j + 1];
    }
  }

  /** The register after one more bit of message. */
  function FeedBit(poly: Word, c: Word, m: bool): Word {
    Step(poly, Xor(c, [m] + Falses(31)))
  }

  function FeedBits(poly: Word, c: Word, m: Bits): Word
    decreases |m|
  {
    if |m| == 0 then c else FeedBits(poly, FeedBit(poly, c, m[0]), m[1..])
  }

  /** One bit: the leading coefficient is divided out. */
  lemma BitDivides(c: Word, m: Bits)
    requires |m| > 0
    ensures Seeded(c, m) == Xor(Row(c[0] != m[0], |m| - 1), [false] + Seeded(FeedBit(Generator()[1..], c, m[0]), m[1..]))
  {
    var n := |m| - 1;
    var g := Generator();
    var first := Row(c[0] != m[0], n);
    var d := FeedBit(g[1..], c, m[0]);
    assert g[0];
    var x, y := Seeded(c, m), Xor(first, [false] + Seeded(d, m[1..]));
    forall i | 0 <= i < n + 33
      ensures x[i] == y[i]
    {
      if i == 0 {
      } else {
        NextBit(g[1..], c, m[0], i - 1);
        assert Seeded(d, m[1..])[i - 1] == ((d + Falses(n))[i - 1] != (m[1..] + Falses(32))[i - 1]);
        assert (m + Falses(32))[i] == (m[1..] + Falses(32))[i - 1];
      }
    }
  }

  /** The bits of the register after a step: those after the first, and the generator where it divides. */
  lemma NextBit(poly: Word, c: Word, m: bool, i: nat)
    ensures i < 32 ==>
              FeedBit(poly, c, m)[i] == ((i < 31 && c[i + 1]) != (c[0] != m && poly[i]))
  {
    if i < 32 {
      var x := Xor(c, [m] + Falses(31));
      assert x[0] == (c[0] != m);
      assert i < 31 ==> x[i + 1] == c[i + 1];
      assert Shr(x, 1)[i] == (i < 31 && c[i + 1]);
    }
  }

  /** Feeding a message bit by bit leaves the remainder of the division. */
  lemma {:induction false} BitsDivide(c: Word, m: Bits) returns (q: Bits)
    ensures |q| == |m| && Seeded(c, m) == Xor(Times(q), Falses(|q|) + FeedBits(Generator()[1..], c, m))
    decreases |m|
  {
    hide Row, Generator, FeedBit, Times;
    if |m| == 0 {
      q := [];
      assert Seeded(c, m) == c;
      assert Times(q) == Falses(32) by { NoProduct(); }
      XorFalses(c, Falses(32));
      assert Falses(0) + c == c;
    } else {
      var b := c[0] != m[0];
      var d := FeedBit(Generator()[1..], c, m[0]);
      var rest := BitsDivide(d, m[1..]);
      q := [b] + rest;
      assert q[1..] == rest;
      TimesStep(q);
      BitDivides(c, m);
      XorCons(Row(b, |rest|), Times(rest), Falses(|rest|) + FeedBits(Generator()[1..], d, m[1..]));
      assert [false] + (Falses(|rest|) + FeedBits(Generator()[1..], d, m[1..])) == Falses(|q|) + FeedBits(Generator()[1..], c, m);
    }
  }

  lemma NoProduct()
    ensures Times([]) == Falses(32)
  {
  }

  lemma XorCons(a: Bits, b: Bits, c: Bits)
    requires |a| == |b| + 1 && |b| == |c|
    ensures Xor(a, [false] + Xor(b, c)) == Xor(Xor(a, [false] + b), [false] + c)
  {
  }

  // ---------- byte by byte is bit by bit ----------

  lemma {:induction false} BitsAtOnce(poly: Word, c: Word, m: Bits)
    requires |m| <= 32
    ensures FeedBits(poly, c, m) == Steps(Stepper(poly), Xor(c, m + Falses(32 - |m|)), |m|)
    decreases |m|
  {
    hide Step;
    if |m| == 0 {
      XorFalses(c, [] + Falses(32));
    } else {
      var n := |m| - 1;
      var d := FeedBit(poly, c, m[0]);
      BitsAtOnce(poly, d, m[1..]);
      FirstOfMany(poly, c, m);
    }
  }

  lemma FirstOfMany(poly: Word, c: Word, m: Bits)
    requires 0 < |m| <= 32
    ensures Step(poly, Xor(c, m + Falses(32 - |m|))) == Xor(FeedBit(poly, c, m[0]), m[1..] + Falses(33 - |m|))
  {
    hide Step;
    var head, tail := [m[0]] + Falses(31), [false] + m[1..] + Falses(32 - |m|);
    assert Xor(c, m + Falses(32 - |m|)) == Xor(Xor(c, head), tail);
    StepLinear(poly, Xor(c, head), tail);
    ShiftsDown(poly, m);
  }

  lemma ShiftsDown(poly: Word, m: Bits)
    requires 0 < |m| <= 32
    ensures Step(poly, [false] + m[1..] + Falses(32 - |m|)) == m[1..] + Falses(33 - |m|)
  {
    var tail := [false] + m[1..] + Falses(32 - |m|);
    assert !tail[0] && Shr(tail, 1) == m[1..] + Falses(33 - |m|);
  }

  lemma {:induction false} FeedBitsAppend(poly: Word, c: Word, a: Bits, b: Bits)
    ensures FeedBits(poly, c, a + b) == FeedBits(poly, FeedBits(poly, c, a), b)
    decreases |a|
  {
    hide FeedBit;
    if |a| == 0 {
      assert a + b == b;
    } else {
      assert (a + b)[1..] == a[1..] + b;
      FeedBitsAppend(poly, FeedBit(poly, c, a[0]), a[1..], b);
    }
  }

  lemma MixIsBits(poly: Word, c: Word, b: byte)
    ensures CrcMixer(poly)(c, b) == FeedBits(poly, c, ByteBits(b))
  {
    hide Step, ToBits, ByteBits;
    BitsAtOnce(poly, c, ByteBits(b));
    FourBytesOfBits(b, 0, 0, 0);
    NoByte();
    assert ByteBits(b) + Falses(8) + Falses(8) + Falses(8) == ByteBits(b) + Falses(24);
  }

  lemma NoByte()
    ensures ByteBits(0) == Falses(8)
  {
  }

  lemma {:induction false} FeedIsBits(poly: Word, c: Word, data: Bytes)
    ensures Feed(CrcMixer(poly), c, data) == FeedBits(poly, c, Message(data))
    decreases |data|
  {
    hide CrcMixer, ByteBits, FeedBit;
    if |data| > 0 {
      MixIsBits(poly, c, data[0]);
      FeedIsBits(poly, CrcMixer(poly)(c, data[0]), data[1..]);
      FeedBitsAppend(poly, c, ByteBits(data[0]), Message(data[1..]));
    }
  }

  /** The checksum of a message is the remainder of the seeded message times x^32. */
  lemma CrcIsRemainder(seed: Word, data: Bytes)
    ensures IsRemainder(Seeded(seed, Message(data)), Crc(seed, data))
  {
    hide Generator, FeedBits, Seeded, Times, Message, CrcMixer;
    FeedIsBits(Poly(), seed, data);
    PolyIsGenerator();
    var q := BitsDivide(seed, Message(data));
  }

  // ---------- the field of a directory-record key ----------

  /** A name in UTF-32, little-endian, its ASCII capitals folded on request. */
  function Utf32(name: CodePoints, caseFold: bool): Bytes {
    if |name| == 0 then []
    else
      var cp := if caseFold && 65 <= name[0] <= 90 then name[0] + 32 else name[0];
      [cp % 0x100, cp / 0x100 % 0x100, cp / 0x1_0000 % 0x100, cp / 0x100_0000 % 0x100] + Utf32(name[1..], caseFold)
  }

  lemma CpIsFour(cp: nat)
    ensures CpBytes(cp) == [cp % 0x100, cp / 0x100 % 0x100, cp / 0x1_0000 % 0x100, cp / 0x100_0000 % 0x100]
  {
    hide LE;
    var a, b, c := cp / 0x100, cp / 0x100 / 0x100, cp / 0x100 / 0x100 / 0x100;
    NextByte(cp, 3);
    NextByte(a, 2);
    NextByte(b, 1);
    NextByte(c, 0);
    assert b == cp / 0x1_0000 && c == cp / 0x100_0000;
  }

  lemma NextByte(v: nat, n: nat)
    ensures LE(v, n + 1) == [v % 0x100] + LE(v / 0x100, n)
    ensures LE(v, 0) == []
  {
  }

  lemma {:induction false} NameFeedIsFeed(mix: Mixer, h: Word, name: CodePoints, caseFold: bool)
    ensures NameFeed(CpFeeder(mix), h, name, caseFold) == Feed(mix, h, Utf32(name, caseFold))
    decreases |name|
  {
    hide LE, Feed, CpBytes;
    if |name| > 0 {
      var cp := Folded(name[0], caseFold);
      CpIsFour(cp);
      NameFeedIsFeed(mix, Feed(mix, h, CpBytes(cp)), name[1..], caseFold);
      FeedAppend(mix, h, CpBytes(cp), Utf32(name[1..], caseFold));
    } else {
      NoData(mix, h);
    }
  }

  lemma NoData(mix: Mixer, h: Word)
    ensures Feed(mix, h, []) == h
  {
  }

  /** The field of a name: the low 22 bits of the checksum of its UTF-32 form, seeded with ones, above the
      low 10 bits of the length of its UTF-8 form and NUL. */
  lemma NameFieldIsRemainder(name: CodePoints, caseFold: bool) returns (r: Bits)
    ensures IsRemainder(Seeded(seq(32, _ => true), Message(Utf32(name, caseFold))), r)
    ensures NameLenAndHash(name, caseFold) / 1024 == FromBits(r[..22])
    ensures NameLenAndHash(name, caseFold) % 1024 == (Utf8Len(name) + 1) % 1024
  {
    hide IsRemainder, Seeded, Message, CrcMixer, Utf32, NameFeed, Feed, FromBits;
    r := NameHash(name, caseFold);
    NameFeedIsFeed(CrcMixer(Poly()), Ones(32), name, caseFold);
    CrcIsRemainder(Ones(32), Utf32(name, caseFold));
    assert Ones(32) == seq(32, _ => true);
  }
}
