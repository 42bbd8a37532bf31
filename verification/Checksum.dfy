/** Fletcher-64 object checksums (`checksum.rs`) and the errors they detect. */
module Checksum {
  import opened Bytes

  /** The modulus of `checksum.rs`: 2^32 - 1, which is composite. */
  const MOD: int := 0xFFFF_FFFF

  // ---------- the checksum as sums over 32-bit words ----------

  /** The whole 32-bit little-endian words of an object; bytes of a trailing partial word are in none. */
  function Lanes(data: Bytes): (ls: seq<nat>)
    ensures |ls| == |data| / 4
  {
    seq(|data| / 4, i requires 0 <= i < |data| / 4 => Field(data, 4 * i, 4))
  }

  function Sum1(ws: seq<nat>): nat {
    if |ws| == 0 then 0 else Sum1(ws[..|ws| - 1]) + ws[|ws| - 1]
  }

  /** The sum of the running sums: word `k` of `n` counts `n - k` times. */
  function Sum2(ws: seq<nat>): nat {
    if |ws| == 0 then 0 else Sum2(ws[..|ws| - 1]) + Sum1(ws)
  }

  function Low(s1: nat, s2: nat): nat {
    MOD - (s1 + s2) % MOD
  }

  function High(s1: nat, s2: nat): nat {
    MOD - (s1 + Low(s1, s2)) % MOD
  }

  /** The words the sums run over: all but the two of the checksum field. */
  function Words(data: Bytes): seq<nat> {
    if |data| < 8 then [] else Lanes(data)[2..]
  }

  function Fletcher(data: Bytes): nat {
    var ws := Words(data);
    High(Sum1(ws), Sum2(ws)) * U32 + Low(Sum1(ws), Sum2(ws))
  }

  /** Sums reduced at every step give the same halves as the unreduced sums. */
  lemma ReducedHalves(s1: nat, s2: nat)
    ensures Low(s1 % MOD, s2 % MOD) == Low(s1, s2) && High(s1 % MOD, s2 % MOD) == High(s1, s2)
  {
    ModAdd(s1, s2 % MOD);
    ModAdd(s2, s1);
    assert Low(s1 % MOD, s2 % MOD) == Low(s1, s2);
    ModAdd(s1, Low(s1, s2));
  }

  lemma SumStep(ws: seq<nat>, k: nat)
    requires k < |ws|
    ensures Sum1(ws[..k + 1]) % MOD == (Sum1(ws[..k]) % MOD + ws[k]) % MOD
    ensures Sum2(ws[..k + 1]) % MOD == (Sum2(ws[..k]) % MOD + Sum1(ws[..k + 1]) % MOD) % MOD
  {
    var v := ws[..k + 1];
    assert v[..k] == ws[..k] && v[k] == ws[k];
    assert Sum1(v) == Sum1(ws[..k]) + ws[k];
    assert Sum2(v) == Sum2(ws[..k]) + Sum1(v);
    ModAdd(Sum1(ws[..k]), ws[k]);
    ModAdd(Sum2(ws[..k]), Sum1(v));
    ModAdd(Sum1(v), Sum2(ws[..k]) % MOD);
  }

  lemma ModAdd(a: nat, b: nat)
    ensures (a % MOD + b) % MOD == (a + b) % MOD
  {
  }

  method Fletcher64Object(data: Bytes) returns (ck: nat)
    ensures ck == Fletcher(data)
  {
    var sum1, sum2 := 0, 0;
    sum2 := (sum2 + sum1) % MOD;
    sum2 := (sum2 + sum1) % MOD;
    var i := 8;
    ghost var ws := Words(data);
    ghost var k := 0;
    while i + 4 <= |data|
      invariant i == 8 + 4 * k && k <= |ws|
      invariant sum1 == Sum1(ws[..k]) % MOD
      invariant sum2 == Sum2(ws[..k]) % MOD
    {
      var w := Field(data, i, 4);
      assert ws[k] == w;
      SumStep(ws, k);
      sum1 := (sum1 + w) % MOD;
      sum2 := (sum2 + sum1) % MOD;
      i, k := i + 4, k + 1;
    }
    assert ws[..k] == ws;
    var low := MOD - (sum1 + sum2) % MOD;
    var high := MOD - (sum1 + low) % MOD;
    ReducedHalves(Sum1(ws), Sum2(ws));
    return high * U32 + low;
  }

  predicate Verify(data: Bytes) {
    |data| >= 8 && Field(data, 0, 8) == Fletcher(data)
  }

  method VerifyObject(data: Bytes) returns (ok: bool)
    ensures ok == Verify(data)
  {
    if |data| < 8 {
      return false;
    }
    var stored := Field(data, 0, 8);
    var ck := Fletcher64Object(data);
    return stored == ck;
  }

  /** The object with its checksum field set, as `fix_checksum` leaves a block. */
  function Stamped(data: Bytes): (r: Bytes)
    requires |data| >= 8
    ensures |r| == |data|
  {
    Splice(data, 0, LE(Fletcher(data), 8))
  }

  lemma LanesTail(a: Bytes, b: Bytes)
    requires |a| == |b| >= 8 && a[8..] == b[8..]
    ensures Lanes(a)[2..] == Lanes(b)[2..]
  {
    forall i | 2 <= i < |a| / 4
      ensures Lanes(a)[i] == Lanes(b)[i]
    {
      assert a[4 * i..4 * i + 4] == a[8..][4 * i - 8..4 * i - 4];
      assert b[4 * i..4 * i + 4] == b[8..][4 * i - 8..4 * i - 4];
      SameField(a, 4 * i, b, 4 * i, 4);
    }
  }

  /** A stamped object verifies, whatever its checksum field held before. */
  lemma StampVerifies(data: Bytes)
    requires |data| >= 8
    ensures Verify(Stamped(data))
    ensures Stamped(data)[8..] == data[8..]
  {
    var r := Stamped(data);
    SpliceReads(data, 0, LE(Fletcher(data), 8));
    assert r[8..] == data[8..];
    LanesTail(r, data);
    LE8(Fletcher(data));
    HalvesInRange(Sum1(Lanes(data)[2..]), Sum2(Lanes(data)[2..]));
    FieldIs(r, 0, 8, LE(Fletcher(data), 8));
  }

  lemma HalvesInRange(s1: nat, s2: nat)
    ensures 1 <= Low(s1, s2) <= MOD && 1 <= High(s1, s2) <= MOD
    ensures High(s1, s2) * U32 + Low(s1, s2) < U64
  {
  }

  // ---------- error detection ----------

  function FlipByte(b: byte, k: nat): int
    requires k < 8
  {
    if b / Pow2(k) % 2 == 1 then b - Pow2(k) else b + Pow2(k)
  }

  lemma Pow2Small()
    ensures Pow2(0) == 1 && Pow2(1) == 2 && Pow2(2) == 4 && Pow2(3) == 8
    ensures Pow2(4) == 16 && Pow2(5) == 32 && Pow2(6) == 64 && Pow2(7) == 128 && Pow2(8) == 256
  {
    assert Pow2(3) == 8 && Pow2(5) == 32;
  }

  lemma FlipByteRange(b: byte, k: nat)
    requires k < 8
    ensures 0 <= FlipByte(b, k) < 256
  {
    Pow2Small();
    if
    case k == 0 =>
    case k == 1 =>
    case k == 2 =>
    case k == 3 =>
    case k == 4 =>
    case k == 5 =>
    case k == 6 =>
    case k == 7 =>
  }

  /** The object with bit `p` (bit `p % 8` of byte `p / 8`) inverted. */
  function Flip(data: Bytes, p: nat): (r: Bytes)
    requires p < 8 * |data|
    ensures |r| == |data|
  {
    FlipByteRange(data[p / 8], p % 8);
    data[p / 8 := FlipByte(data[p / 8], p % 8)]
  }

  lemma {:induction false} Pow2Add(a: nat, b: nat)
    ensures Pow2(a + b) == Pow2(a) * Pow2(b)
  {
    if a > 0 {
      Pow2Add(a - 1, b);
      assert Pow2(a + b) == 2 * Pow2(a - 1 + b);
    }
  }

  /** A flipped bit moves exactly one word, by plus or minus a power of two. */
  lemma FlipLane(data: Bytes, p: nat) returns (d: int)
    requires p < 8 * |data|
    ensures p / 32 < |data| / 4 ==>
              (d == Pow2(p % 32) || d == -Pow2(p % 32)) &&
              Lanes(data)[p / 32] + d >= 0 &&
              Lanes(Flip(data, p)) == Lanes(data)[p / 32 := Lanes(data)[p / 32] + d]
    ensures p / 32 >= |data| / 4 ==> Lanes(Flip(data, p)) == Lanes(data)
  {
    var q := p / 32;
    var f := Flip(data, p);
    forall i | 0 <= i < |data| / 4 && i != q
      ensures Lanes(f)[i] == Lanes(data)[i]
    {
      assert f[4 * i..4 * i + 4] == data[4 * i..4 * i + 4];
      SameField(f, 4 * i, data, 4 * i, 4);
    }
    if q < |data| / 4 {
      d := LaneMove(data, p);
    } else {
      d := 0;
    }
  }

  lemma LaneMove(data: Bytes, p: nat) returns (d: int)
    requires p < 8 * |data| && p / 32 < |data| / 4
    ensures d == Pow2(p % 32) || d == -Pow2(p % 32)
    ensures Lanes(Flip(data, p))[p / 32] == Lanes(data)[p / 32] + d
  {
    var f := Flip(data, p);
    var c := (f[p / 8] as int) - (data[p / 8] as int);
    var r := p / 8 % 4;
    assert p / 8 == 4 * (p / 32) + r && p % 32 == 8 * r + p % 8;
    FieldMove(data, f, 4 * (p / 32), r, c);
    WeightPow(r, p % 8);
    d := c * Weight(r);
  }

  function Weight(r: nat): int {
    if r == 0 then 1 else if r == 1 then 256 else if r == 2 then 65536 else 16777216
  }

  lemma WeightPow(r: nat, k: nat)
    requires r < 4
    ensures Pow2(8 * r + k) == Pow2(k) * Weight(r)
  {
    Pow2Small();
    Pow2Add(8, 8);
    Pow2Add(16, 8);
    Pow2Add(8 * r, k);
  }

  lemma FieldMove(s: Bytes, f: Bytes, i: nat, r: nat, c: int)
    requires |s| == |f| && i + 4 <= |s| && r < 4
    requires forall j :: 0 <= j < |s| && j != i + r ==> f[j] == s[j]
    requires f[i + r] as int == s[i + r] as int + c
    ensures Field(f, i, 4) == Field(s, i, 4) + c * Weight(r)
  {
    FourBytes(s, i);
    FourBytes(f, i);
  }

  lemma FourBytes(s: Bytes, i: nat)
    requires i + 4 <= |s|
    ensures Field(s, i, 4) == (s[i] as int) + 256 * (s[i + 1] as int) + 65536 * (s[i + 2] as int) + 16777216 * (s[i + 3] as int)
  {
    assert Field(s, i + 3, 1) == s[i + 3];
    assert Field(s, i + 2, 2) == s[i + 2] + 256 * Field(s, i + 3, 1);
    assert Field(s, i + 1, 3) == s[i + 1] + 256 * Field(s, i + 2, 2);
  }

  /** Powers of two are invertible modulo 2^32 - 1. */
  lemma Pow2Invertible(j: nat, x: int)
    requires j <= 32 && (Pow2(j) * x) % MOD == 0
    ensures x % MOD == 0
  {
    var q := (Pow2(j) * x) / MOD;
    Pow2Add(32 - j, j);
    Pow2Of32();
    var k := Pow2(32 - j);
    Shifted(k, Pow2(j), x, q);
    MultipleOf(k * q - x);
  }

  lemma Shifted(k: int, p: int, x: int, q: int)
    requires k * p == MOD + 1 && p * x == MOD * q
    ensures x == MOD * (k * q - x)
  {
    assert k * (p * x) == (k * p) * x;
    assert k * (MOD * q) == MOD * (k * q);
    assert (MOD + 1) * x == MOD * x + x;
  }

  lemma Pow2Of32()
    ensures Pow2(32) == MOD + 1
    ensures Pow2(31) == 0x8000_0000
  {
    Pow2Small();
    Pow2Add(8, 8);
    Pow2Add(16, 16);
    assert Pow2(32) == 2 * Pow2(31);
  }

  lemma MultipleOf(k: int)
    ensures (MOD * k) % MOD == 0
  {
  }

  lemma {:induction false} Pow2Monotone(a: nat, b: nat)
    requires a <= b
    ensures 1 <= Pow2(a) <= Pow2(b)
    ensures a < b ==> Pow2(a) < Pow2(b)
    decreases b
  {
    if a < b {
      Pow2Monotone(a, b - 1);
    } else if a > 0 {
      Pow2Monotone(a - 1, b - 1);
    }
  }

  ghost predicate BitMove(d: int, j: nat) {
    j < 32 && (d == Pow2(j) || d == -Pow2(j))
  }

  lemma BitMoveSmall(d: int, j: nat)
    requires BitMove(d, j)
    ensures 0 < d <= 0x8000_0000 || -0x8000_0000 <= d < 0
  {
    Pow2Monotone(j, 31);
    Pow2Of32();
  }

  /** One bit's move times a small count never vanishes modulo 2^32 - 1. */
  lemma MoveTimes(d: int, j: nat, m: int)
    requires BitMove(d, j) && m != 0 && -MOD < m < MOD
    ensures (d * m) % MOD != 0
  {
    if (d * m) % MOD == 0 {
      Negated(d * m);
      if d == Pow2(j) {
        Pow2Invertible(j, m);
      } else {
        assert Pow2(j) * m == -(d * m);
        Pow2Invertible(j, m);
      }
      assert false;
    }
  }

  lemma Negated(x: int)
    ensures x % MOD == 0 <==> (-x) % MOD == 0
  {
    if x % MOD == 0 {
      assert -x == MOD * -(x / MOD);
      MultipleOf(-(x / MOD));
    }
    if (-x) % MOD == 0 {
      assert x == MOD * -((-x) / MOD);
      MultipleOf(-((-x) / MOD));
    }
  }

  /** Two different bits of one word cannot cancel. */
  lemma TwoMoves(d: int, i: nat, e: int, j: nat)
    requires BitMove(d, i) && BitMove(e, j) && i != j
    ensures (d + e) % MOD != 0
  {
    Pow2Monotone(i, 31);
    Pow2Monotone(j, 31);
    Pow2Of32();
    if i < j {
      Pow2Monotone(i, j);
    } else {
      Pow2Monotone(j, i);
    }
    assert d + e != 0;
    assert -MOD < d + e < MOD by {
      if i < j {
        Pow2Monotone(i, 30);
        assert Pow2(31) == 2 * Pow2(30);
      } else {
        Pow2Monotone(j, 30);
        assert Pow2(31) == 2 * Pow2(30);
      }
    }
  }

  /** Moving word `k` of `n` by `d` moves the sums by `d` and `(n - k) d`. */
  lemma {:induction false} SumsMove(ws: seq<nat>, k: nat, d: int)
    requires k < |ws| && ws[k] + d >= 0
    ensures Sum1(ws[k := ws[k] + d]) == Sum1(ws) + d
    ensures Sum2(ws[k := ws[k] + d]) == Sum2(ws) + d * (|ws| - k)
  {
    var n := |ws| - 1;
    var v := ws[k := ws[k] + d];
    assert Sum1(v) == Sum1(v[..n]) + v[n] && Sum2(v) == Sum2(v[..n]) + Sum1(v);
    if k < n {
      SumsMove(ws[..n], k, d);
      assert v[..n] == ws[..n][k := ws[k] + d];
      Distribute(d, n - k);
    } else {
      assert v[..n] == ws[..n];
    }
  }

  lemma Distribute(d: int, m: int)
    ensures d * m + d == d * (m + 1)
  {
  }

  /** The two halves determine the sums modulo 2^32 - 1: the pair-to-checksum map is injective. */
  lemma HalvesInjective(s1: nat, s2: nat, t1: nat, t2: nat)
    ensures Low(s1, s2) == Low(t1, t2) <==> (s1 + s2 - t1 - t2) % MOD == 0
    ensures High(s1, s2) == High(t1, t2) <==> (s2 - t2) % MOD == 0
  {
    SameRemainder(s1 + s2, t1 + t2);
    HighIsSum2(s1, s2);
    HighIsSum2(t1, t2);
    SameRemainder(s2, t2);
  }

  lemma SameRemainder(a: nat, b: nat)
    ensures a % MOD == b % MOD <==> (a - b) % MOD == 0
  {
    if (a - b) % MOD == 0 {
      assert a == b + MOD * ((a - b) / MOD);
    }
  }

  lemma HighIsSum2(s1: nat, s2: nat)
    ensures High(s1, s2) == if s2 % MOD == 0 then MOD else s2 % MOD
  {
    var low := Low(s1, s2);
    var q := (s1 + s2) / MOD;
    assert s1 + low == MOD * (q + 1) - s2;
    var r := s2 % MOD;
    assert s1 + low == MOD * (q + 1 - s2 / MOD) - r;
    assert s1 + low >= 0;
    if r == 0 {
      MultipleOf(q + 1 - s2 / MOD);
    } else {
      var m := q - s2 / MOD;
      assert s1 + low == MOD * m + (MOD - r);
      assert m >= 0;
      DivModUnique(s1 + low, MOD, m, MOD - r);
    }
  }

  /** The stored halves, words 0 and 1, match the sums of the words after them. */
  ghost predicate Consistent(ls: seq<nat>)
    requires |ls| >= 2
  {
    ls[0] == Low(Sum1(ls[2..]), Sum2(ls[2..])) && ls[1] == High(Sum1(ls[2..]), Sum2(ls[2..]))
  }

  lemma VerifyIsConsistent(data: Bytes)
    requires |data| >= 8
    ensures Verify(data) <==> Consistent(Lanes(data))
  {
    hide Field, Sum1, Sum2, Low, High;
    var ws := Words(data);
    HalvesInRange(Sum1(ws), Sum2(ws));
    EightBytes(data);
    FieldBound(data, 0, 4);
    Pow256Sizes();
    JoinHalves(Field(data, 0, 4), Field(data, 4, 4), Low(Sum1(ws), Sum2(ws)), High(Sum1(ws), Sum2(ws)));
  }

  lemma JoinHalves(x: nat, y: nat, low: nat, high: nat)
    requires x < U32 && low <= MOD
    ensures x + U32 * y == high * U32 + low <==> x == low && y == high
  {
  }

  lemma EightBytes(s: Bytes)
    requires |s| >= 8
    ensures Field(s, 0, 8) == Field(s, 0, 4) + U32 * Field(s, 4, 4)
  {
    FourBytes(s, 0);
    assert Field(s, 3, 5) == s[3] + 256 * Field(s, 4, 4);
    assert Field(s, 2, 6) == s[2] + 256 * Field(s, 3, 5);
    assert Field(s, 1, 7) == s[1] + 256 * Field(s, 2, 6);
  }

  function Bump(ls: seq<nat>, i: nat, d: int): (r: seq<nat>)
    requires i < |ls| && ls[i] + d >= 0
    ensures |r| == |ls|
  {
    ls[i := ls[i] + d]
  }

  /** How a moved word shows in the sums. */
  lemma BumpSums(ls: seq<nat>, i: nat, d: int)
    requires 2 <= i < |ls| && ls[i] + d >= 0
    ensures Sum1(Bump(ls, i, d)[2..]) == Sum1(ls[2..]) + d
    ensures Sum2(Bump(ls, i, d)[2..]) == Sum2(ls[2..]) + d * (|ls| - i)
  {
    SumsMove(ls[2..], i - 2, d);
    assert Bump(ls, i, d)[2..] == ls[2..][i - 2 := ls[i] + d];
  }

  /** One moved bit anywhere breaks consistency; in a data word it moves both halves. */
  lemma OneMove(ls: seq<nat>, i: nat, d: int, a: nat)
    requires |ls| >= 2 && Consistent(ls)
    requires i < |ls| && ls[i] + d >= 0 && BitMove(d, a)
    ensures !Consistent(Bump(ls, i, d))
    ensures i >= 2 && |ls| - 2 <= MOD - 2 ==>
              var ws := Bump(ls, i, d)[2..];
              ls[0] != Low(Sum1(ws), Sum2(ws)) && ls[1] != High(Sum1(ws), Sum2(ws))
  {
    BitMoveSmall(d, a);
    if i < 2 {
      assert Bump(ls, i, d)[2..] == ls[2..];
    } else {
      BumpSums(ls, i, d);
      var ws, vs := ls[2..], Bump(ls, i, d)[2..];
      HalvesInjective(Sum1(vs), Sum2(vs), Sum1(ws), Sum2(ws));
      BothSums(d, d * (|ls| - i));
      MoveTimes(d, a, 1);
      if |ls| - 2 <= MOD - 2 {
        assert d + d * (|ls| - i) == d * (|ls| - i + 1);
        MoveTimes(d, a, |ls| - i + 1);
        MoveTimes(d, a, |ls| - i);
      }
    }
  }

  /** Two moved bits break consistency, wherever they are. */
  lemma TwoMovesDetected(ls: seq<nat>, i: nat, d: int, a: nat, j: nat, e: int, b: nat)
    requires |ls| >= 2 && |ls| - 2 <= MOD - 2 && Consistent(ls)
    requires i < |ls| && ls[i] + d >= 0 && BitMove(d, a)
    requires j < |ls| && Bump(ls, i, d)[j] + e >= 0 && BitMove(e, b)
    requires i != j || a != b
    ensures !Consistent(Bump(Bump(ls, i, d), j, e))
  {
    var m := Bump(ls, i, d);
    BitMoveSmall(d, a);
    BitMoveSmall(e, b);
    OneMove(ls, i, d, a);
    if j < 2 {
      assert Bump(m, j, e)[2..] == m[2..];
      if i < 2 {
        assert m[2..] == ls[2..];
        if i == j {
          TwoMoves(d, a, e, b);
        }
      }
    } else if i < 2 {
      var f := Bump(ls, j, e);
      OneMove(ls, j, e, b);
      assert Bump(m, j, e)[2..] == f[2..];
    } else {
      TwoDataMoves(ls, i, d, a, j, e, b);
    }
  }

  lemma TwoDataMoves(ls: seq<nat>, i: nat, d: int, a: nat, j: nat, e: int, b: nat)
    requires |ls| >= 2 && |ls| - 2 <= MOD - 2 && Consistent(ls)
    requires 2 <= i < |ls| && ls[i] + d >= 0 && BitMove(d, a)
    requires 2 <= j < |ls| && Bump(ls, i, d)[j] + e >= 0 && BitMove(e, b)
    requires i != j || a != b
    ensures !Consistent(Bump(Bump(ls, i, d), j, e))
  {
    var m := Bump(ls, i, d);
    var n := |ls|;
    BumpSums(ls, i, d);
    BumpSums(m, j, e);
    var ws, vs := ls[2..], Bump(m, j, e)[2..];
    assert Sum1(vs) == Sum1(ws) + d + e;
    assert Sum2(vs) == Sum2(ws) + d * (n - i) + e * (n - j);
    HalvesInjective(Sum1(vs), Sum2(vs), Sum1(ws), Sum2(ws));
    if i == j {
      TwoMoves(d, a, e, b);
      BothSums(d + e, d * (n - i) + e * (n - j));
    } else {
      TwoWords(n, i, d, a, j, e);
      BothSums(d + e, d * (n - i) + e * (n - j));
    }
  }

  /** Moves in different words cannot leave both sums alone. */
  lemma TwoWords(n: nat, i: nat, d: int, a: nat, j: nat, e: int)
    requires i < n && j < n && i != j && n <= MOD && BitMove(d, a)
    ensures (d + e) % MOD != 0 || (d * (n - i) + e * (n - j)) % MOD != 0
  {
    var x, y := d + e, d * (n - i) + e * (n - j);
    if x % MOD == 0 && y % MOD == 0 {
      assert y - x * (n - j) == d * (j - i);
      ScaledMultiple(x, n - j);
      Difference(y, x * (n - j));
      MoveTimes(d, a, j - i);
      assert false;
    }
  }

  lemma ScaledMultiple(x: int, k: int)
    requires x % MOD == 0
    ensures (x * k) % MOD == 0
  {
    assert x * k == MOD * ((x / MOD) * k) by {
      assert x == MOD * (x / MOD);
    }
    MultipleOf((x / MOD) * k);
  }

  lemma Difference(x: int, y: int)
    requires x % MOD == 0 && y % MOD == 0
    ensures (x - y) % MOD == 0
  {
    assert x - y == MOD * (x / MOD - y / MOD);
    MultipleOf(x / MOD - y / MOD);
  }

  lemma BothSums(x: int, y: int)
    ensures x % MOD == 0 && y % MOD == 0 <==> (x + y) % MOD == 0 && y % MOD == 0
  {
    if x % MOD == 0 && y % MOD == 0 {
      Negated(y);
      Difference(x, -y);
    }
    if (x + y) % MOD == 0 && y % MOD == 0 {
      Difference(x + y, y);
    }
  }

  /** A one-bit error goes unnoticed exactly when it lies outside every whole word, at any length. */
  lemma DetectsFlip(data: Bytes, p: nat)
    requires Verify(data) && p < 8 * |data|
    ensures Verify(Flip(data, p)) <==> p / 32 >= |data| / 4
  {
    hide Field, Sum1, Sum2, Fletcher;
    VerifyIsConsistent(data);
    VerifyIsConsistent(Flip(data, p));
    var d := FlipLane(data, p);
    if p / 32 < |data| / 4 {
      OneMove(Lanes(data), p / 32, d, p % 32);
    }
  }

  /** A two-bit error goes unnoticed exactly when both bits lie outside every whole word: an object of
      whole words, at most 2^32 - 3 of them data, fails to verify after any one-bit or two-bit error. */
  lemma DetectsTwoFlips(data: Bytes, p: nat, q: nat)
    requires Verify(data) && |data| / 4 - 2 <= MOD - 2
    requires p < q < 8 * |data|
    ensures Verify(Flip(Flip(data, p), q)) <==> p / 32 >= |data| / 4 && q / 32 >= |data| / 4
  {
    hide Field, Sum1, Sum2, Fletcher;
    var f := Flip(data, p);
    if q / 32 >= |data| / 4 {
      DetectsFlip(data, p);
      var e := FlipLane(f, q);
      VerifyIsConsistent(f);
      VerifyIsConsistent(Flip(f, q));
    } else {
      BothCovered(data, p, q);
    }
  }

  lemma BothCovered(data: Bytes, p: nat, q: nat)
    requires Verify(data) && |data| / 4 - 2 <= MOD - 2
    requires p < q < 8 * |data| && q / 32 < |data| / 4
    ensures !Verify(Flip(Flip(data, p), q))
  {
    hide Field, Sum1, Sum2, Fletcher;
    var f := Flip(data, p);
    var ls := Lanes(data);
    var d := FlipLane(data, p);
    assert Lanes(f) == Bump(ls, p / 32, d);
    var e := FlipLane(f, q);
    assert Lanes(Flip(f, q)) == Bump(Lanes(f), q / 32, e);
    VerifyIsConsistent(data);
    VerifyIsConsistent(Flip(f, q));
    TwoMovesDetected(ls, p / 32, d, p % 32, q / 32, e, q % 32);
  }
}
