/** CRC-32C and the directory-record name hash (`hash.rs`).
    The polynomial is that of section 12.1 of RFC 3720, reflected. A `u32` register is its 32 bits,
    least significant first, so that XOR and shifts are what they are on bits. */
module Hash {
  import opened Bytes

  type Bits = seq<bool>
  type Word = w: Bits | |w| == 32 witness Falses(32)
  type CodePoints = seq<nat>
  type Register = Word -> Word

  /** The low `n` bits of `v`. */
  function ToBits(v: nat, n: nat): (r: Bits)
    ensures |r| == n
  {
    if n == 0 then [] else [v % 2 == 1] + ToBits(v / 2, n - 1)
  }

  function FromBits(w: Bits): nat {
    if |w| == 0 then 0 else (if w[0] then 1 else 0) + 2 * FromBits(w[1..])
  }

  function Falses(n: nat): (r: Bits)
    ensures |r| == n
  {
    seq(n, _ => false)
  }

  function Xor(a: Bits, b: Bits): (r: Bits)
    requires |a| == |b|
    ensures |r| == |a|
  {
    seq(|a|, i requires 0 <= i < |a| => a[i] != b[i])
  }

  /** `w >> n`. */
  function Shr(w: Bits, n: nat): (r: Bits)
    requires n <= |w|
    ensures |r| == |w|
  {
    w[n..] + Falses(n)
  }

  // ---------- crc32c ----------

  const POLY: nat := 0x82F6_3B78

  function Poly(): Word {
    ToBits(POLY, 32)
  }

  /** One bit step of the register; the code writes the choice as a mask of all ones or all zeros. */
  function Step(poly: Word, crc: Word): Word {
    if crc[0] then Xor(Shr(crc, 1), poly) else Shr(crc, 1)
  }

  function Stepper(poly: Word): Register {
    crc => Step(poly, crc)
  }

  function Steps(step: Register, crc: Word, n: nat): Word
    decreases n
  {
    if n == 0 then crc else Steps(step, step(crc), n - 1)
  }

  type Mixer = (Word, byte) -> Word

  /** Eight bit steps. */
  function Stride(step: Register): Register {
    crc => Steps(step, crc, 8)
  }

  /** One byte: XOR it in, then eight bit steps. */
  function ByteMixer(stride: Register): Mixer {
    (crc, b) => stride(Xor(crc, ToBits(b, 32)))
  }

  function Feed(mix: Mixer, seed: Word, data: Bytes): Word
    decreases |data|
  {
    if |data| == 0 then seed else Feed(mix, mix(seed, data[0]), data[1..])
  }

  function CrcMixer(poly: Word): Mixer {
    ByteMixer(Stride(Stepper(poly)))
  }

  function Crc(seed: Word, data: Bytes): Word {
    Feed(CrcMixer(Poly()), seed, data)
  }

  method Crc32c(seed: Word, data: Bytes) returns (crc: Word)
    ensures crc == Crc(seed, data)
  {
    var poly := Poly();
    crc := FeedBytes(poly, seed, data);
  }

  method FeedBytes(poly: Word, seed: Word, data: Bytes) returns (crc: Word)
    ensures crc == Feed(CrcMixer(poly), seed, data)
  {
    crc := seed;
    for k := 0 to |data|
      invariant Feed(CrcMixer(poly), crc, data[k..]) == Feed(CrcMixer(poly), seed, data)
    {
      assert data[k..][1..] == data[k + 1..];
      crc := MixByte(poly, crc, data[k]);
    }
  }

  method MixByte(poly: Word, start: Word, b: byte) returns (crc: Word)
    ensures crc == CrcMixer(poly)(start, b)
  {
    crc := EightSteps(poly, Xor(start, ToBits(b, 32)), 8);
  }

  /** The inner loop of `crc32c`. */
  method EightSteps(poly: Word, start: Word, n: nat) returns (crc: Word)
    ensures crc == Steps(Stepper(poly), start, n)
  {
    crc := start;
    for j := 0 to n
      invariant Steps(Stepper(poly), crc, n - j) == Steps(Stepper(poly), start, n)
    {
      var mask := if crc[0] then poly else Falses(32);
      assert Xor(Shr(crc, 1), mask) == Step(poly, crc);
      crc := Xor(Shr(crc, 1), mask);
    }
  }

  // ---------- a bit step is a linear bijection ----------

  function Unstep(poly: Word, crc: Word): Word {
    if crc[31] then [true] + Xor(crc, poly)[..31] else [false] + crc[..31]
  }

  /** A bit step has a two-sided inverse on 32-bit states. */
  lemma StepBijective(poly: Word, a: Word)
    requires poly[31]
    ensures Unstep(poly, Step(poly, a)) == a
    ensures Step(poly, Unstep(poly, a)) == a
  {
    UnstepStep(poly, a);
    StepUnstep(poly, a);
  }

  lemma UnstepStep(poly: Word, a: Word)
    requires poly[31]
    ensures Unstep(poly, Step(poly, a)) == a
  {
    var s := Step(poly, a);
    assert s[31] == a[0];
    var u := Unstep(poly, s);
    forall i | 0 <= i < 31
      ensures u[1..][i] == a[1..][i]
    {
      assert Shr(a, 1)[i] == a[1..][i];
    }
    assert u == [u[0]] + u[1..] && a == [a[0]] + a[1..];
  }

  lemma StepUnstep(poly: Word, a: Word)
    requires poly[31]
    ensures Step(poly, Unstep(poly, a)) == a
  {
    var u := Unstep(poly, a);
    assert u[0] == a[31];
    var s := Shr(u, 1);
    assert !s[31];
    forall i | 0 <= i < 31
      ensures s[i] == if a[31] then Xor(a, poly)[i] else a[i]
    {
      assert s[i] == u[i + 1] == u[1..][i];
    }
  }

  lemma StepLinear(poly: Word, a: Word, b: Word)
    ensures Step(poly, Xor(a, b)) == Xor(Step(poly, a), Step(poly, b))
  {
  }

  /** What the theorems below need of a register's step. */
  ghost predicate Linear(step: Register) {
    forall a: Word, b: Word :: step(Xor(a, b)) == Xor(step(a), step(b))
  }

  ghost predicate Injective(step: Register) {
    forall a: Word, b: Word :: step(a) == step(b) ==> a == b
  }

  ghost predicate ShiftsEven(step: Register) {
    forall a: Word :: !a[0] ==> step(a) == Shr(a, 1)
  }

  lemma StepperIs(poly: Word)
    requires poly[31]
    ensures Linear(Stepper(poly)) && Injective(Stepper(poly)) && ShiftsEven(Stepper(poly))
  {
    forall a: Word, b: Word
      ensures Step(poly, Xor(a, b)) == Xor(Step(poly, a), Step(poly, b))
    {
      StepLinear(poly, a, b);
    }
    forall a: Word
      ensures Unstep(poly, Step(poly, a)) == a
    {
      StepBijective(poly, a);
    }
  }

  lemma Pow2Sizes()
    ensures Pow2(8) == 256 && Pow2(24) == 0x100_0000 && Pow2(31) == 0x8000_0000 && Pow2(32) == U32
  {
    assert Pow2(4) == 16 && Pow2(8) == 256;
    assert Pow2(12) == 4096 && Pow2(16) == 65536;
    assert Pow2(20) == 1048576 && Pow2(24) == 16777216;
    assert Pow2(28) == 268435456;
  }

  /** Low bits, then high bits. */
  lemma {:induction false} ToBitsParts(w: nat, q: nat, k: nat, n: nat)
    requires w < Pow2(k)
    ensures ToBits(w + Pow2(k) * q, k + n) == ToBits(w, k) + ToBits(q, n)
  {
    if k > 0 {
      ToBitsParts(w / 2, q, k - 1, n);
      Consed(w % 2 == 1, ToBits(w / 2, k - 1), ToBits(q, n));
      HalfOfParts(w, Pow2(k - 1), q);
      assert Pow2(k) * q == 2 * Pow2(k - 1) * q;
    }
  }

  lemma HalfOfParts(w: nat, p: nat, q: nat)
    ensures (w + 2 * p * q) % 2 == w % 2 && (w + 2 * p * q) / 2 == w / 2 + p * q
  {
    assert 2 * p * q == 2 * (p * q);
  }

  lemma Consed(x: bool, a: Bits, b: Bits)
    ensures [x] + (a + b) == ([x] + a) + b
  {
  }

  lemma {:induction false} ToBitsZero(n: nat)
    ensures ToBits(0, n) == Falses(n)
  {
    if n > 0 {
      ToBitsZero(n - 1);
    }
  }

  lemma PolyTopBit()
    ensures Poly()[31]
  {
    Pow2Sizes();
    TopBit(POLY, 31);
  }

  lemma TopBit(v: nat, k: nat)
    requires Pow2(k) <= v < 2 * Pow2(k)
    ensures ToBits(v, k + 1)[k]
  {
    ToBitsParts(v - Pow2(k), 1, k, 1);
  }

  /** The update is XOR-linear, for any number of bit steps. */
  lemma {:induction false} StepsLinear(step: Register, a: Word, b: Word, n: nat)
    requires Linear(step)
    ensures Steps(step, Xor(a, b), n) == Xor(Steps(step, a, n), Steps(step, b, n))
    decreases n
  {
    if n > 0 {
      StepsLinear(step, step(a), step(b), n - 1);
    }
  }

  lemma {:induction false} StepsAdd(step: Register, a: Word, m: nat, n: nat)
    ensures Steps(step, a, m + n) == Steps(step, Steps(step, a, m), n)
    decreases m
  {
    if m > 0 {
      StepsAdd(step, step(a), m - 1, n);
    }
  }

  lemma {:induction false} StepsInjective(step: Register, a: Word, b: Word, n: nat)
    requires Injective(step) && Steps(step, a, n) == Steps(step, b, n)
    ensures a == b
    decreases n
  {
    if n > 0 {
      StepsInjective(step, step(a), step(b), n - 1);
    }
  }

  /** The checksum of a concatenation continues from the checksum of its first part. */
  lemma {:induction false} FeedAppend(mix: Mixer, seed: Word, a: Bytes, b: Bytes)
    ensures Feed(mix, seed, a + b) == Feed(mix, Feed(mix, seed, a), b)
    decreases |a|
  {
    if |a| == 0 {
      assert a + b == b;
    } else {
      assert (a + b)[1..] == a[1..] + b;
      FeedAppend(mix, mix(seed, a[0]), a[1..], b);
    }
  }

  /** What a change of seed does to a checksum does not depend on the data: the difference only steps on. */
  lemma {:induction false} FeedDifference(stride: Register, s: Word, t: Word, data: Bytes)
    requires Linear(stride)
    ensures Feed(ByteMixer(stride), Xor(s, t), data) == Xor(Feed(ByteMixer(stride), s, data), Steps(stride, t, |data|))
    decreases |data|
  {
    if |data| > 0 {
      XorSwap(s, t, ToBits(data[0], 32));
      FeedDifference(stride, ByteMixer(stride)(s, data[0]), stride(t), data[1..]);
    }
  }

  lemma XorSwap(a: Word, b: Word, c: Word)
    ensures Xor(Xor(a, b), c) == Xor(Xor(a, c), b)
  {
  }

  // ---------- one code point ----------

  /** `(cp as u32).to_le_bytes()`. */
  function CpBytes(cp: nat): Bytes {
    LE(cp, 4)
  }

  lemma {:induction false} ShiftOut(step: Register, x: Word, n: nat)
    requires ShiftsEven(step)
    requires n <= 32 && forall i :: 0 <= i < n ==> !x[i]
    ensures Steps(step, x, n) == Shr(x, n)
    decreases n
  {
    if n > 0 {
      var y := Shr(x, 1);
      assert step(x) == y;
      forall i | 0 <= i < n - 1
        ensures !y[i]
      {
        assert y[i] == x[i + 1];
      }
      ShiftOut(step, y, n - 1);
      assert Shr(y, n - 1) == Shr(x, n);
    } else {
      assert Shr(x, 0) == x;
    }
  }

  /** `k` steps consume the low `k` bits of what was mixed in and shift the rest down. */
  lemma BitsOff(step: Register, h: Word, w: Word, low: Word, k: nat)
    requires Linear(step) && ShiftsEven(step) && k <= 32
    requires low[..k] == w[..k] && low[k..] == Falses(32 - k)
    ensures Steps(step, Xor(h, w), k) == Xor(Steps(step, Xor(h, low), k), Shr(w, k))
  {
    var rest := Xor(w, low);
    forall i | 0 <= i < 32
      ensures i < k ==> !rest[i]
      ensures i >= k ==> rest[i] == w[i]
    {
      assert i < k ==> w[..k][i] == low[..k][i];
      assert i >= k ==> low[k..][i - k] == low[i];
    }
    assert Xor(h, w) == Xor(Xor(h, low), rest);
    StepsLinear(step, Xor(h, low), rest, k);
    ShiftOut(step, rest, k);
    assert Shr(rest, k) == Shr(w, k);
  }

  /** The bits of a number, of its low part and of its high part; `k` is 8 and `n` is 24. */
  lemma SplitWord(w: nat, q: nat, k: nat, n: nat)
    requires w < Pow2(k) && q < Pow2(n)
    ensures ToBits(w, k + n) == ToBits(w, k) + Falses(n)
    ensures ToBits(w + Pow2(k) * q, k + n) == ToBits(w, k) + ToBits(q, n)
    ensures ToBits(q, n + k) == ToBits(q, n) + Falses(k)
  {
    ToBitsParts(w, q, k, n);
    ToBitsParts(w, 0, k, n);
    ToBitsZero(n);
    ToBitsParts(q, 0, n, k);
    ToBitsZero(k);
  }

  ghost predicate ConsumesBytes(stride: Register) {
    forall h: Word, v: nat {:trigger stride(Xor(h, ToBits(v, 32)))} :: v < U32 ==>
      stride(Xor(h, ToBits(v, 32))) == Xor(ByteMixer(stride)(h, v % 256), ToBits(v / 256, 32))
  }

  lemma ByteOff(step: Register, h: Word, v: nat)
    requires Linear(step) && ShiftsEven(step) && v < U32
    ensures Steps(step, Xor(h, ToBits(v, 32)), 8) == Xor(Steps(step, Xor(h, ToBits(v % 256, 32)), 8), ToBits(v / 256, 32))
  {
    Pow2Sizes();
    SplitWord(v % 256, v / 256, 8, 24);
    assert v == v % 256 + Pow2(8) * (v / 256);
    BitsOff(step, h, ToBits(v, 32), ToBits(v % 256, 32), 8);
    assert Shr(ToBits(v, 32), 8) == ToBits(v / 256, 32);
  }

  lemma StrideIs(step: Register)
    requires Linear(step) && Injective(step) && ShiftsEven(step)
    ensures Linear(Stride(step)) && Injective(Stride(step)) && ConsumesBytes(Stride(step))
  {
    forall a: Word, b: Word
      ensures Steps(step, Xor(a, b), 8) == Xor(Steps(step, a, 8), Steps(step, b, 8))
    {
      StepsLinear(step, a, b, 8);
    }
    forall a: Word, b: Word | Steps(step, a, 8) == Steps(step, b, 8)
      ensures a == b
    {
      StepsInjective(step, a, b, 8);
    }
    forall h: Word, v: nat | v < U32
      ensures Steps(step, Xor(h, ToBits(v, 32)), 8) == Xor(Steps(step, Xor(h, ToBits(v % 256, 32)), 8), ToBits(v / 256, 32))
    {
      ByteOff(step, h, v);
    }
  }

  /** Hashing the `k` bytes of a number is one mix of the whole number followed by `k` strides. */
  lemma {:induction false} NumberIsOneMix(stride: Register, h: Word, v: nat, k: nat)
    requires ConsumesBytes(stride) && v < Pow256(k) && v < U32
    ensures Feed(ByteMixer(stride), h, LE(v, k)) == Steps(stride, Xor(h, ToBits(v, 32)), k)
    decreases k
  {
    var mix := ByteMixer(stride);
    if k == 0 {
      XorNothing(h, v);
    } else {
      var g := mix(h, v % 256);
      NumberIsOneMix(stride, g, v / 256, k - 1);
      assert LE(v, k)[1..] == LE(v / 256, k - 1);
      assert stride(Xor(h, ToBits(v, 32))) == Xor(g, ToBits(v / 256, 32));
    }
  }

  lemma XorNothing(h: Word, v: nat)
    requires v < 1
    ensures Xor(h, ToBits(v, 32)) == h
  {
    ToBitsZero(32);
    assert ToBits(v, 32) == Falses(32);
  }

  // ---------- drec_name_len_and_hash ----------

  /** A Rust `char` is a code point below 0x110000. */
  ghost predicate IsName(name: CodePoints) {
    forall i :: 0 <= i < |name| ==> name[i] < 0x11_0000
  }

  /** ASCII case folding: the only folding the code does. */
  function Lower(cp: nat): nat {
    if 65 <= cp <= 90 then cp + 32 else cp
  }

  function Folded(cp: nat, caseFold: bool): nat {
    if caseFold then Lower(cp) else cp
  }

  /** The seed, `0xFFFF_FFFF`. */
  function Ones(n: nat): (r: Bits)
    ensures |r| == n
  {
    seq(n, _ => true)
  }

  type Feeder = (Word, nat) -> Word

  /** Hash one code point. */
  function CpFeeder(mix: Mixer): Feeder {
    (h, cp) => Feed(mix, h, CpBytes(cp))
  }

  function NameFeed(feed: Feeder, h: Word, name: CodePoints, caseFold: bool): Word
    decreases |name|
  {
    if |name| == 0 then h else NameFeed(feed, feed(h, Folded(name[0], caseFold)), name[1..], caseFold)
  }

  /** The 32-bit hash of a name, before masking. */
  function NameHash(name: CodePoints, caseFold: bool): Word {
    NameFeed(CpFeeder(CrcMixer(Poly())), Ones(32), name, caseFold)
  }

  /** `str::len`: the length of the name in UTF-8. */
  function Utf8Len(name: CodePoints): nat {
    if |name| == 0 then 0 else CpLen(name[0]) + Utf8Len(name[1..])
  }

  function CpLen(cp: nat): nat {
    if cp < 0x80 then 1 else if cp < 0x800 then 2 else if cp < 0x1_0000 then 3 else 4
  }

  /** 22 bits of hash above 10 bits of length, the NUL included. */
  function NameLenAndHash(name: CodePoints, caseFold: bool): nat {
    FromBits(NameHash(name, caseFold)[..22]) * 1024 + (Utf8Len(name) + 1) % 1024
  }

  method DrecNameLenAndHash(name: CodePoints, caseFold: bool) returns (r: nat)
    ensures r == NameLenAndHash(name, caseFold)
  {
    var poly, seed := Poly(), Ones(32);
    var hash := HashName(poly, seed, name, caseFold);
    var nameLen := Utf8Len(name) + 1;
    return FromBits(hash[..22]) * 1024 + nameLen % 1024;
  }

  method HashName(poly: Word, seed: Word, name: CodePoints, caseFold: bool) returns (hash: Word)
    ensures hash == NameFeed(CpFeeder(CrcMixer(poly)), seed, name, caseFold)
  {
    hash := seed;
    for i := 0 to |name|
      invariant NameFeed(CpFeeder(CrcMixer(poly)), hash, name[i..], caseFold) == NameFeed(CpFeeder(CrcMixer(poly)), seed, name, caseFold)
    {
      assert name[i..][1..] == name[i + 1..];
      var folded := if caseFold then (if 65 <= name[i] <= 90 then name[i] + 32 else name[i]) else name[i];
      hash := FeedBytes(poly, hash, CpBytes(folded));
    }
  }

  lemma XorCancels(a: Word, b: Word, x: Word)
    requires Xor(a, x) == Xor(b, x)
    ensures a == b
  {
    forall i | 0 <= i < 32
      ensures a[i] == b[i]
    {
      assert Xor(a, x)[i] == Xor(b, x)[i];
    }
  }

  lemma XorCommutes(a: Word, b: Word)
    ensures Xor(a, b) == Xor(b, a)
  {
  }

  lemma {:induction false} FromToBits(v: nat, n: nat)
    requires v < Pow2(n)
    ensures FromBits(ToBits(v, n)) == v
  {
    if n > 0 {
      FromToBits(v / 2, n - 1);
    }
  }

  /** A code point's hash depends injectively on the state and on the code point. */
  lemma CpInjective(stride: Register, g: Word, u: nat, h: Word, v: nat)
    requires ConsumesBytes(stride) && Injective(stride) && u < U32 && v < U32
    requires Feed(ByteMixer(stride), g, CpBytes(u)) == Feed(ByteMixer(stride), h, CpBytes(v))
    ensures u == v <==> g == h
  {
    Pow256Sizes();
    NumberIsOneMix(stride, g, u, 4);
    NumberIsOneMix(stride, h, v, 4);
    StepsInjective(stride, Xor(g, ToBits(u, 32)), Xor(h, ToBits(v, 32)), 4);
    MixInjective(g, u, h, v);
  }

  lemma MixInjective(g: Word, u: nat, h: Word, v: nat)
    requires u < U32 && v < U32 && Xor(g, ToBits(u, 32)) == Xor(h, ToBits(v, 32))
    ensures u == v <==> g == h
  {
    var x, y := ToBits(u, 32), ToBits(v, 32);
    if u == v {
      XorCancels(g, h, x);
    }
    if g == h {
      XorCommutes(g, x);
      XorCommutes(h, y);
      XorCancels(x, y, g);
      Pow2Sizes();
      FromToBits(u, 32);
      FromToBits(v, 32);
    }
  }

  ghost predicate Separates(feed: Feeder) {
    forall g: Word, u: nat, h: Word, v: nat ::
      u < U32 && v < U32 && feed(g, u) == feed(h, v) ==> (u == v <==> g == h)
  }

  lemma CpFeederSeparates(poly: Word)
    requires poly[31]
    ensures Separates(CpFeeder(CrcMixer(poly)))
  {
    StepperIs(poly);
    StrideIs(Stepper(poly));
    var stride := Stride(Stepper(poly));
    forall g: Word, u: nat, h: Word, v: nat |
      u < U32 && v < U32 && Feed(ByteMixer(stride), g, CpBytes(u)) == Feed(ByteMixer(stride), h, CpBytes(v))
      ensures u == v <==> g == h
    {
      CpInjective(stride, g, u, h, v);
    }
  }

  /** Different states stay different through any further code points. */
  lemma {:induction false} NameFeedInjective(feed: Feeder, g: Word, h: Word, name: CodePoints, caseFold: bool)
    requires Separates(feed) && g != h && IsName(name)
    ensures NameFeed(feed, g, name, caseFold) != NameFeed(feed, h, name, caseFold)
    decreases |name|
  {
    if |name| > 0 {
      var cp := Folded(name[0], caseFold);
      NameFeedInjective(feed, feed(g, cp), feed(h, cp), name[1..], caseFold);
    }
  }

  lemma {:induction false} OneApart(feed: Feeder, h: Word, a: CodePoints, b: CodePoints, i: nat, caseFold: bool)
    requires Separates(feed)
    requires IsName(a) && IsName(b) && |a| == |b| && i < |a|
    requires forall j :: 0 <= j < |a| && j != i ==> Folded(a[j], caseFold) == Folded(b[j], caseFold)
    requires Folded(a[i], caseFold) != Folded(b[i], caseFold)
    ensures NameFeed(feed, h, a, caseFold) != NameFeed(feed, h, b, caseFold)
    decreases i
  {
    var g, k := feed(h, Folded(a[0], caseFold)), feed(h, Folded(b[0], caseFold));
    if i == 0 {
      SameFoldSameHash(feed, k, a[1..], b[1..], caseFold);
      NameFeedInjective(feed, g, k, a[1..], caseFold);
    } else {
      OneApart(feed, g, a[1..], b[1..], i - 1, caseFold);
    }
  }

  lemma {:induction false} SameFoldSameHash(feed: Feeder, h: Word, a: CodePoints, b: CodePoints, caseFold: bool)
    requires |a| == |b|
    requires forall j :: 0 <= j < |a| ==> Folded(a[j], caseFold) == Folded(b[j], caseFold)
    ensures NameFeed(feed, h, a, caseFold) == NameFeed(feed, h, b, caseFold)
    decreases |a|
  {
    if |a| > 0 {
      SameFoldSameHash(feed, feed(h, Folded(a[0], caseFold)), a[1..], b[1..], caseFold);
    }
  }

  /** Names with equally many code points that differ, after folding, in exactly one of them
      have different 32-bit hashes. */
  lemma OneCodePointApart(a: CodePoints, b: CodePoints, i: nat, caseFold: bool)
    requires IsName(a) && IsName(b) && |a| == |b| && i < |a|
    requires forall j :: 0 <= j < |a| && j != i ==> Folded(a[j], caseFold) == Folded(b[j], caseFold)
    ensures NameHash(a, caseFold) == NameHash(b, caseFold) <==> Folded(a[i], caseFold) == Folded(b[i], caseFold)
  {
    PolyTopBit();
    CpFeederSeparates(Poly());
    var feed := CpFeeder(CrcMixer(Poly()));
    if Folded(a[i], caseFold) == Folded(b[i], caseFold) {
      SameFoldSameHash(feed, Ones(32), a, b, caseFold);
    } else {
      OneApart(feed, Ones(32), a, b, i, caseFold);
    }
  }

  // ---------- lookup_child and the hash ----------

  /** `str::eq_ignore_ascii_case`. */
  predicate EqIgnoreCase(a: CodePoints, b: CodePoints) {
    |a| == |b| && forall i :: 0 <= i < |a| ==> Lower(a[i]) == Lower(b[i])
  }

  predicate SameName(a: CodePoints, b: CodePoints, caseInsensitive: bool) {
    if caseInsensitive then EqIgnoreCase(a, b) else a == b
  }

  lemma {:induction false} FoldKeepsLength(a: CodePoints, b: CodePoints)
    requires EqIgnoreCase(a, b)
    ensures Utf8Len(a) == Utf8Len(b)
  {
    if |a| > 0 {
      assert Lower(a[0]) == Lower(b[0]);
      FoldKeepsLength(a[1..], b[1..]);
    }
  }

  /** Names a lookup takes for equal carry the same length-and-hash field. */
  lemma FoldCongruence(a: CodePoints, b: CodePoints, caseInsensitive: bool)
    requires SameName(a, b, caseInsensitive)
    ensures NameLenAndHash(a, caseInsensitive) == NameLenAndHash(b, caseInsensitive)
  {
    if caseInsensitive {
      FoldKeepsLength(a, b);
      SameFoldSameHash(CpFeeder(CrcMixer(Poly())), Ones(32), a, b, true);
    }
  }
}
