/**
 * The byte cursors every codec uses: a `Reader` that only moves forward over
 * an input buffer, and a `Writer` that appends into a buffer of fixed
 * capacity; plus the two reader helpers `check_tag!` and `read_data`.
 */
module Cursor {
  import opened Results
  import opened Asn1

  /** A forward-only read position over an immutable input buffer. */
  class Reader {
    const buf: seq<Byte>
    var pos: nat

    ghost predicate Valid()
      reads this
    {
      pos <= |buf|
    }

    constructor (data: seq<Byte>)
      ensures Valid() && buf == data && pos == 0
    {
      buf := data;
      pos := 0;
    }

    /** Reads one byte; fails without moving when none is left. */
    method ReadByte() returns (r: Asn1Result<Byte>)
      requires Valid()
      modifies this
      ensures Valid()
      ensures old(pos) < |buf| ==> r == Ok(buf[old(pos)]) && pos == old(pos) + 1
      ensures old(pos) == |buf| ==> r == Err(BufferUnderrun) && pos == old(pos)
    {
      if pos == |buf| {
        return Err(BufferUnderrun);
      }
      r := Ok(buf[pos]);
      pos := pos + 1;
    }

    /** Looks at the next byte without consuming it. */
    method PeekByte() returns (r: Asn1Result<Byte>)
      requires Valid()
      ensures pos < |buf| ==> r == Ok(buf[pos])
      ensures pos == |buf| ==> r == Err(BufferUnderrun)
    {
      if pos == |buf| {
        return Err(BufferUnderrun);
      }
      r := Ok(buf[pos]);
    }

    /** Reads `n` bytes as one slice; fails without moving when fewer remain. */
    method ReadSlice(n: nat) returns (r: Asn1Result<seq<Byte>>)
      requires Valid()
      modifies this
      ensures Valid()
      ensures old(pos) + n <= |buf| ==> r == Ok(buf[old(pos)..old(pos) + n]) && pos == old(pos) + n
      ensures old(pos) + n > |buf| ==> r == Err(BufferUnderrun) && pos == old(pos)
    {
      if pos + n > |buf| {
        return Err(BufferUnderrun);
      }
      r := Ok(buf[pos..pos + n]);
      pos := pos + n;
    }

    /** The bytes `start..end` of the input, which must lie inside it. */
    function DataInRange(start: nat, end: nat): (r: Asn1Result<seq<Byte>>)
    {
      if start <= end <= |buf| then Ok(buf[start..end]) else Err(BufferUnderrun)
    }
  }

  /** Reads the tag byte and compares it with `tag` (the `check_tag!` step). */
  method CheckTag(reader: Reader, tag: Byte) returns (r: Asn1Result<()>)
    requires reader.Valid()
    modifies reader
    ensures reader.Valid()
    ensures old(reader.pos) == |reader.buf| ==> r == Err(BufferUnderrun) && reader.pos == old(reader.pos)
    ensures old(reader.pos) < |reader.buf| ==> reader.pos == old(reader.pos) + 1
    ensures old(reader.pos) < |reader.buf| ==>
      r == (if reader.buf[old(reader.pos)] == tag then Ok(()) else Err(InvalidTag(tag, reader.buf[old(reader.pos)])))
  {
    var found :- reader.ReadByte();
    if found != tag {
      return Err(InvalidTag(tag, found));
    }
    return Ok(());
  }

  /** Reads `len` content bytes and reports the range they occupied (`read_data`). */
  method ReadData(reader: Reader, len: nat) returns (r: Asn1Result<(seq<Byte>, Range)>)
    requires reader.Valid()
    modifies reader
    ensures reader.Valid()
    ensures old(reader.pos) + len <= |reader.buf| ==>
      r == Ok((reader.buf[old(reader.pos)..old(reader.pos) + len], Range(old(reader.pos), old(reader.pos) + len)))
      && reader.pos == old(reader.pos) + len
    ensures old(reader.pos) + len > |reader.buf| ==> r == Err(BufferUnderrun) && reader.pos == old(reader.pos)
  {
    var start := reader.pos;
    var data :- reader.ReadSlice(len);
    return Ok((data, Range(start, reader.pos)));
  }

  /** An append-only output buffer whose capacity is fixed when it is created. */
  class Writer {
    const buf: array<Byte>
    var pos: nat

    ghost predicate Valid()
      reads this
    {
      pos <= buf.Length
    }

    /** The bytes written so far. */
    ghost function Written(): seq<Byte>
      reads this, buf
      requires Valid()
    {
      buf[..pos]
    }

    constructor (capacity: nat)
      ensures Valid() && fresh(buf) && buf.Length == capacity && Written() == []
    {
      buf := new Byte[capacity];
      pos := 0;
    }

    /** Appends one byte; fails without writing when the buffer is full. */
    method WriteByte(b: Byte) returns (r: Asn1Result<()>)
      requires Valid()
      modifies this, buf
      ensures Valid()
      ensures r.Ok? <==> old(pos) + 1 <= buf.Length
      ensures r.Ok? ==> Written() == old(Written()) + [b] && pos == old(pos) + 1
      ensures r.Err? ==> r.error == BufferOverflow && Written() == old(Written()) && pos == old(pos)
    {
      if pos == buf.Length {
        return Err(BufferOverflow);
      }
      buf[pos] := b;
      pos := pos + 1;
      return Ok(());
    }

    /** Appends a slice; fails without writing when it does not fit. */
    method WriteSlice(s: seq<Byte>) returns (r: Asn1Result<()>)
      requires Valid()
      modifies this, buf
      ensures Valid()
      ensures r.Ok? <==> old(pos) + |s| <= buf.Length
      ensures r.Ok? ==> Written() == old(Written()) + s && pos == old(pos) + |s|
      ensures r.Err? ==> r.error == BufferOverflow && Written() == old(Written()) && pos == old(pos)
    {
      if pos + |s| > buf.Length {
        return Err(BufferOverflow);
      }
      var i := 0;
      while i < |s|
        invariant 0 <= i <= |s| && pos == old(pos)
        invariant buf[..pos + i] == old(buf[..pos]) + s[..i]
      {
        buf[pos + i] := s[i];
        i := i + 1;
      }
      pos := pos + |s|;
      return Ok(());
    }
  }

  /**
   * What an encoder that stopped part-way has written: the bytes before it,
   * followed by a prefix `p` of what it meant to write.
   */
  lemma PrefixOfAppend(a: seq<Byte>, p: seq<Byte>, q: seq<Byte>)
    requires p <= q
    ensures a <= a + p <= a + q
  {
    assert (a + q)[..|a + p|] == a + p;
  }

  /**
   * What an encoder that stopped inside one of several parts has written:
   * `done` (already a prefix of the whole) and then at most the part `p`.
   */
  lemma PrefixStep(before: seq<Byte>, done: seq<Byte>, p: seq<Byte>, rest: seq<Byte>, w: seq<Byte>)
    requires before <= done && done <= w <= done + p
    ensures before <= w <= done + p + rest
  {
    assert (done + p + rest)[..|done + p|] == done + p;
    assert w[..|done|] == done;
    assert w[..|before|] == done[..|before|];
  }

  /** An encoder that failed after writing `head` wrote a prefix of `head + body`. */
  lemma PrefixAfter(before: seq<Byte>, head: seq<Byte>, body: seq<Byte>, w: seq<Byte>)
    requires before + head <= w <= before + head + body
    ensures before <= w <= before + (head + body)
  {
    assert before + head + body == before + (head + body);
    assert w[..|before|] == (before + head)[..|before|];
  }
}
