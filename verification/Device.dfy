/** Byte-addressed devices (`device.rs`): a file or raw medium, and a window into another device. */
module Device {
  import opened Bytes

  /** `read_exact` of `n` bytes at `off`. */
  function ReadExact(file: Bytes, off: nat, n: nat): (r: Result<Bytes>)
    ensures r.Ok? ==> |r.value| == n
  {
    if n == 0 then Ok([]) else if off + n <= |file| then Ok(file[off..off + n]) else Err(Io)
  }

  // ---------- FileDevice ----------

  /** `Refused` is os error 87: the medium does not take this offset or length. */
  datatype Outcome = Data(bytes: Bytes) | Refused | Failed(error: Error)

  /** A medium that accepts whole sectors only; `sector` 0 accepts anything. */
  function RawRead(file: Bytes, sector: nat, off: nat, n: nat): (r: Outcome)
    ensures r.Data? ==> |r.bytes| == n
  {
    if n > 0 && sector > 0 && (off % sector != 0 || n % sector != 0) then Refused
    else
      match ReadExact(file, off, n)
      case Ok(b) => Data(b)
      case Err(e) => Failed(e)
  }

  function Down(off: nat, align: nat): nat
    requires align > 0
  {
    off - off % align
  }

  function Up(end: nat, align: nat): nat
    requires align > 0
  {
    (end + align - 1) / align * align
  }

  lemma Widened(off: nat, n: nat, align: nat)
    requires align > 0
    ensures 0 <= Down(off, align) <= off && off + n <= Up(off + n, align) < off + n + align
    ensures Up(off + n, align) % align == 0 && Down(off, align) % align == 0
  {
    var q := (off + n + align - 1) / align;
    DivFacts(off + n + align - 1, align);
    DivFacts(off, align);
    MultipleMod(q, align);
    MultipleMod(off / align, align);
  }

  lemma DivFacts(v: nat, d: nat)
    requires d > 0
    ensures v == v / d * d + v % d && 0 <= v % d < d && v % d <= v
  {
    assert v == d * (v / d) + v % d;
    if v / d > 0 {
      MulAtLeast(d, v / d);
    }
  }

  lemma MultipleMod(q: nat, d: nat)
    requires d > 0
    ensures q * d % d == 0
  {
    DivModUnique(q * d, d, q, 0);
  }

  function AlignedRead(file: Bytes, sector: nat, off: nat, n: nat, align: nat): (r: Outcome)
    requires align > 0
    ensures r.Data? ==> |r.bytes| == n
  {
    Widened(off, n, align);
    var start := Down(off, align);
    if off + n + align - 1 >= U64 then Failed(Parse)
    else
      match RawRead(file, sector, start, Up(off + n, align) - start)
      case Data(b) => Data(b[off - start..off - start + n])
      case o => o
  }

  /** A read, with the sector-size guess it leaves behind: a refused guess below 4096 is raised once. */
  function GuessedRead(file: Bytes, sector: nat, align: nat, off: nat, n: nat): (Outcome, nat) {
    if align == 0 then (RawRead(file, sector, off, n), 0)
    else
      var r := AlignedRead(file, sector, off, n, align);
      if r.Refused? && align < 4096 then (AlignedRead(file, sector, off, n, 4096), 4096) else (r, align)
  }

  class FileDevice {
    const file: Bytes
    const sector: nat
    var align: nat

    constructor (file: Bytes, sector: nat, isRawDevice: bool)
      ensures this.file == file && this.sector == sector
      ensures align == if isRawDevice then 512 else 0
    {
      this.file := file;
      this.sector := sector;
      align := if isRawDevice then 512 else 0;
    }

    method ReadAligned(off: nat, buf: array<byte>, align: nat) returns (r: Outcome)
      requires align > 0
      modifies buf
      ensures r == AlignedRead(file, sector, off, buf.Length, align)
      ensures buf[..] == if r.Data? then r.bytes else old(buf[..])
    {
      var n := buf.Length;
      Widened(off, n, align);
      var start := off - off % align;
      if off + n + align - 1 >= U64 {
        return Failed(Parse);
      }
      var end := (off + n + align - 1) / align * align;
      var bounce := RawRead(file, sector, start, end - start);
      if bounce.Data? {
        var lo := off - start;
        CopyInto(bounce.bytes[lo..lo + n], buf);
        return Data(bounce.bytes[lo..lo + n]);
      }
      return bounce;
    }

    method ReadAt(off: nat, buf: array<byte>) returns (r: Outcome)
      modifies this, buf
      ensures (r, align) == GuessedRead(file, sector, old(align), off, buf.Length)
      ensures buf[..] == if r.Data? then r.bytes else old(buf[..])
    {
      if align == 0 {
        r := RawRead(file, sector, off, buf.Length);
        if r.Data? {
          CopyInto(r.bytes, buf);
        }
        return;
      }
      r := ReadAligned(off, buf, align);
      if r.Refused? && align < 4096 {
        align := 4096;
        r := ReadAligned(off, buf, 4096);
      }
    }
  }

  method CopyInto(src: Bytes, buf: array<byte>)
    requires |src| == buf.Length
    modifies buf
    ensures buf[..] == src
  {
    forall i | 0 <= i < buf.Length {
      buf[i] := src[i];
    }
  }

  /** A read widened to whole sectors is the direct read exactly when the widened range does not cross
      the end of the file while the wanted range stays inside (an empty read past the end aside). */
  lemma AlignedIsDirect(file: Bytes, sector: nat, off: nat, n: nat, align: nat)
    requires align > 0 && n > 0 && off + n + align - 1 < U64
    requires sector == 0 || align % sector == 0
    ensures AlignedRead(file, sector, off, n, align) == RawRead(file, 0, off, n) <==>
            off + n > |file| || Up(off + n, align) <= |file|
  {
    Widened(off, n, align);
    var start, end := Down(off, align), Up(off + n, align);
    if sector > 0 {
      WholeSectors(start, align, sector);
      WholeSectors(end, align, sector);
      ModDiff(end, start, sector);
    }
    if end <= |file| {
      SubSlice(file, start, end, off - start, off - start + n);
    }
  }

  lemma WholeSectors(v: nat, align: nat, sector: nat)
    requires sector > 0 && align > 0 && align % sector == 0 && v % align == 0
    ensures v % sector == 0
  {
    DivFacts(v, align);
    DivFacts(align, sector);
    var a, b := v / align, align / sector;
    assert v == (a * b) * sector by {
      assert v == a * align == a * (b * sector);
      Assoc(a, b, sector);
    }
    MultipleMod(a * b, sector);
  }

  lemma Assoc(a: nat, b: nat, c: nat)
    ensures a * (b * c) == (a * b) * c
  {
  }

  lemma ModDiff(end: nat, start: nat, sector: nat)
    requires sector > 0 && start <= end && end % sector == 0 && start % sector == 0
    ensures (end - start) % sector == 0
  {
    DivFacts(end, sector);
    DivFacts(start, sector);
    var q := end / sector - start / sector;
    assert end - start == q * sector;
    if q < 0 {
      MulAtLeast(sector, q);
    }
    MultipleMod(q, sector);
  }

  /** A medium that is a whole number of its sectors, and a guess the device can hold for it. */
  ghost predicate Healthy(file: Bytes, sector: nat, align: nat) {
    match align
    case 0 => sector == 0
    case 512 => (sector == 512 && |file| % 512 == 0) || (sector == 4096 && |file| % 4096 == 0)
    case 4096 => sector == 4096 && |file| % 4096 == 0
    case _ => false
  }

  /** On such a medium every read returns what a direct read would, whatever was guessed before, and the
      guess stays usable: escalation never loses or shifts a byte. */
  lemma ReadsAreDirect(file: Bytes, sector: nat, align: nat, off: nat, n: nat)
    requires Healthy(file, sector, align) && n > 0 && off + n + 4096 < U64
    ensures GuessedRead(file, sector, align, off, n).0 == RawRead(file, 0, off, n)
    ensures Healthy(file, sector, GuessedRead(file, sector, align, off, n).1)
  {
    hide AlignedRead, RawRead, Up;
    if sector == 4096 {
      WholeMedium(file, 4096, off, n);
      if align == 512 {
        Guess512(file, off, n);
        NeverRefused(file, off, n);
      }
    } else if sector == 512 {
      WholeMedium(file, 512, off, n);
      NeverRefused(file, off, n);
    }
  }

  lemma NeverRefused(file: Bytes, off: nat, n: nat)
    ensures !RawRead(file, 0, off, n).Refused?
  {
  }

  /** The right sector size on a whole medium. */
  lemma WholeMedium(file: Bytes, sector: nat, off: nat, n: nat)
    requires sector > 0 && |file| % sector == 0 && n > 0 && off + n + sector - 1 < U64
    ensures AlignedRead(file, sector, off, n, sector) == RawRead(file, 0, off, n)
  {
    hide AlignedRead, RawRead, Up;
    MultipleMod(1, sector);
    if off + n <= |file| {
      UpInside(file, off + n, sector);
    }
    AlignedIsDirect(file, sector, off, n, sector);
  }

  /** Rounding up to a sector stays inside a file of whole sectors. */
  lemma UpInside(file: Bytes, end: nat, align: nat)
    requires align > 0 && |file| % align == 0 && end <= |file|
    ensures Up(end, align) <= |file|
  {
    Widened(end, 0, align);
    DivFacts(|file|, align);
    BelowMultiple(|file| / align, (end + align - 1) / align, align);
  }

  lemma BelowMultiple(a: nat, b: nat, d: nat)
    requires b * d < a * d + d
    ensures b * d <= a * d
  {
    assert b * d - a * d == d * (b - a);
    MulAtLeast(d, b - a);
  }

  /** A guess of 512 on a 4096-byte sector medium is either refused or already right. */
  lemma Guess512(file: Bytes, off: nat, n: nat)
    requires |file| % 4096 == 0 && n > 0 && off + n + 511 < U64
    ensures var r := AlignedRead(file, 4096, off, n, 512);
            r.Refused? || r == RawRead(file, 0, off, n)
  {
    hide Up, Down, AlignedRead, RawRead;
    SmallerSectors(|file|);
    if off + n <= |file| {
      UpInside(file, off + n, 512);
    }
    InsideIsDirect(file, 4096, off, n, 512);
  }

  lemma SmallerSectors(m: nat)
    requires m % 4096 == 0
    ensures m % 512 == 0
  {
    DivModUnique(m, 512, 8 * (m / 4096), 0);
  }

  /** A widened read that does not cross the end of the file alone is refused or right. */
  lemma InsideIsDirect(file: Bytes, sector: nat, off: nat, n: nat, align: nat)
    requires align > 0 && n > 0 && off + n + align - 1 < U64
    requires off + n > |file| || Up(off + n, align) <= |file|
    ensures var r := AlignedRead(file, sector, off, n, align);
            r.Refused? || r == RawRead(file, 0, off, n)
  {
    hide Up, Down;
    Widened(off, n, align);
    var start, end := Down(off, align), Up(off + n, align);
    if off + n <= |file| {
      SubSlice(file, start, end, off - start, off - start + n);
    }
  }

  // ---------- SliceDevice ----------

  /** A window of `size` bytes from `start` of another device. */
  function SliceRead(inner: Bytes, start: nat, size: nat, off: nat, n: nat): Result<Bytes> {
    if off + n >= U64 then Err(Parse)
    else if off + n > size then Err(Io)
    else ReadExact(inner, start + off, n)
  }

  /** A window inside its device reads as the bytes it frames, and as an error past its end: of another kind
      where the range passes 64 bits, and even for no bytes, which a plain device reads anywhere. */
  lemma SliceIsWindow(inner: Bytes, start: nat, size: nat, off: nat, n: nat)
    requires start + size <= |inner|
    ensures SliceRead(inner, start, size, off, n) ==
            if off + n > 0xFFFF_FFFF_FFFF_FFFF then Err(Parse)
            else if off + n > size then Err(Io)
            else ReadExact(inner[start..start + size], off, n)
  {
    if 0 < n && off + n <= size {
      SubSlice(inner, start, start + size, off, off + n);
    }
  }
}
