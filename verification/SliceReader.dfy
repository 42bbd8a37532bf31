/** The bounds-checked cursor every parser reads through (`raw.rs`). */
module SliceReader {
  import opened Bytes

  class Reader {
    const buf: Bytes
    var pos: nat

    ghost predicate Valid()
      reads this
    {
      pos <= |buf|
    }

    constructor (buf: Bytes)
      ensures Valid() && this.buf == buf && pos == 0
    {
      this.buf := buf;
      pos := 0;
    }

    function Remaining(): nat
      requires Valid()
      reads this
    {
      |buf| - pos
    }

    method Skip(n: nat) returns (r: Result<()>)
      requires Valid()
      modifies this
      ensures Valid()
      ensures old(pos) + n <= |buf| ==> r.Ok? && pos == old(pos) + n
      ensures old(pos) + n > |buf| ==> r == Err(Parse) && pos == old(pos)
    {
      if Remaining() < n {
        return Err(Parse);
      }
      pos := pos + n;
      return Ok(());
    }

    method Take(n: nat) returns (r: Result<Bytes>)
      requires Valid()
      modifies this
      ensures Valid()
      ensures r == TakeAt(buf, old(pos), n)
      ensures pos == if r.Ok? then old(pos) + n else old(pos)
    {
      if Remaining() < n {
        return Err(Parse);
      }
      r := Ok(buf[pos..pos + n]);
      pos := pos + n;
    }

    /** `u8`, `u16`, `u32` and `u64` for `n` of 1, 2, 4 and 8. */
    method Uint(n: nat) returns (r: Result<nat>)
      requires Valid()
      modifies this
      ensures Valid()
      ensures r == ReadLE(buf, old(pos), n)
      ensures pos == if r.Ok? then old(pos) + n else old(pos)
    {
      var was := pos;
      var b :- Take(n);
      assert b[0..n] == buf[was..was + n];
      SameField(b, 0, buf, was, n);
      return Ok(FromLE(b));
    }
  }

  function TakeAt(s: Bytes, pos: nat, n: nat): Result<Bytes> {
    if pos + n <= |s| then Ok(s[pos..pos + n]) else Err(Parse)
  }
}
