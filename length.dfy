/**
 * The determinate length field (section 8.1.3 of ITU-T X.690, with the
 * minimal-form rule of section 10.1): short form for lengths up to 127, else
 * a count byte `0x80 | k` followed by `k` big-endian magnitude bytes.
 * `LenSize` is `len_size`, `LenBytes` is what `write_len` emits and
 * `ParseLen` is what `read_len` reads.
 */
module Length {
  import opened Results
  import opened Asn1
  import opened Cursor

  function Pow256(k: nat): nat
  {
    if k == 0 then 1 else 256 * Pow256(k - 1)
  }

  /** The number of base-256 digits of `n` (at least one). */
  function ByteCount(n: nat): nat
  {
    if n < 256 then 1 else 1 + ByteCount(n / 256)
  }

  /** `len_size`: the width of the length field the encoder writes for `n`. */
  function LenSize(n: nat): nat
  {
    if n < 0x80 then 1 else 1 + ByteCount(n)
  }

  /** The minimal big-endian bytes of a positive `n`. */
  function Magnitude(n: nat): seq<Byte>
    requires n > 0
  {
    if n < 256 then [n] else Magnitude(n / 256) + [n % 256]
  }

  /** The number whose big-endian bytes are `s`. */
  function FromBigEndian(s: seq<Byte>): nat
  {
    if s == [] then 0 else FromBigEndian(s[..|s| - 1]) * 256 + s[|s| - 1]
  }

  lemma {:induction false} MagnitudeFacts(n: nat)
    requires n > 0
    ensures |Magnitude(n)| == ByteCount(n)
    ensures FromBigEndian(Magnitude(n)) == n
    ensures Magnitude(n)[0] != 0
  {
    if n >= 256 {
      MagnitudeFacts(n / 256);
      var m := Magnitude(n);
      assert m[..|m| - 1] == Magnitude(n / 256);
    }
  }

  lemma {:induction false} ByteCountBound(n: nat, k: nat)
    requires 1 <= k && n < Pow256(k)
    ensures ByteCount(n) <= k
  {
    if n >= 256 {
      ByteCountBound(n / 256, k - 1);
    }
  }

  lemma {:induction false} FromBigEndianBound(s: seq<Byte>)
    ensures FromBigEndian(s) < Pow256(|s|)
  {
    if s != [] {
      FromBigEndianBound(s[..|s| - 1]);
    }
  }

  /** k bytes 0xFF denote the largest number of k bytes. */
  lemma {:induction false} FromBigEndianAllOnes(s: seq<Byte>)
    requires forall i :: 0 <= i < |s| ==> s[i] == 0xFF
    ensures FromBigEndian(s) == Pow256(|s|) - 1
  {
    if s != [] {
      FromBigEndianAllOnes(s[..|s| - 1]);
    }
  }

  /** Big-endian bytes of one width denote distinct numbers. */
  lemma {:induction false} FromBigEndianInjective(s: seq<Byte>, t: seq<Byte>)
    requires |s| == |t| && FromBigEndian(s) == FromBigEndian(t)
    ensures s == t
  {
    if s != [] {
      var ps, pt := s[..|s| - 1], t[..|t| - 1];
      assert FromBigEndian(ps) == FromBigEndian(pt) && s[|s| - 1] == t[|t| - 1];
      FromBigEndianInjective(ps, pt);
      assert s == ps + [s[|s| - 1]] && t == pt + [t[|t| - 1]];
    }
  }

  lemma UsizeByteCount(n: Usize)
    ensures ByteCount(n) <= 8
  {
    assert Pow256(8) == USIZE_LIMIT;
    ByteCountBound(n, 8);
  }

  /** `write_len`: the length field the encoder writes for `n`. */
  function LenBytes(n: Usize): seq<Byte>
  {
    if n < 0x80 then [n]
    else
      UsizeByteCount(n);
      MagnitudeFacts(n);
      [0x80 + |Magnitude(n)|] + Magnitude(n)
  }

  /** `len_size(n)` is the number of bytes `write_len(n)` emits; short form exactly below 128. */
  lemma LenBytesSize(n: Usize)
    ensures |LenBytes(n)| == LenSize(n)
    ensures LenSize(n) == 1 <==> n <= 127
  {
    if n >= 0x80 {
      MagnitudeFacts(n);
    }
  }

  /** The long form never carries a redundant leading zero byte (section 10.1 of X.690). */
  lemma LenBytesMinimal(n: Usize)
    requires n > 127
    ensures LenBytes(n)[0] == 0x80 + (|LenBytes(n)| - 1)
    ensures LenBytes(n)[1] != 0
  {
    MagnitudeFacts(n);
  }

  /** `read_len`: the length value at `pos` and the range of its field. */
  function ParseLen(buf: seq<Byte>, pos: nat): (r: Asn1Result<(Usize, Range)>)
    requires pos <= |buf|
    ensures r.Ok? ==> r.value.1.start == pos < r.value.1.end <= |buf|
  {
    if pos == |buf| then Err(BufferUnderrun)
    else if buf[pos] < 0x80 then Ok((buf[pos], Range(pos, pos + 1)))
    else
      var count := buf[pos] - 0x80;
      if count == 0 then Err(InvalidLength)
      else if pos + 1 + count > |buf| then Err(BufferUnderrun)
      else
        var value := FromBigEndian(buf[pos + 1..pos + 1 + count]);
        if value >= USIZE_LIMIT then Err(InvalidLength)
        else Ok((value, Range(pos, pos + 1 + count)))
  }

  /** Reading back what `write_len(n)` wrote yields `n` and a field of `len_size(n)` bytes. */
  lemma ParseLenBytes(n: Usize, buf: seq<Byte>, pos: nat)
    requires pos + LenSize(n) <= |buf| && buf[pos..pos + LenSize(n)] == LenBytes(n)
    ensures ParseLen(buf, pos) == Ok((n, Range(pos, pos + LenSize(n))))
  {
    LenBytesSize(n);
    assert buf[pos] == LenBytes(n)[0];
    if n >= 0x80 {
      MagnitudeFacts(n);
      UsizeByteCount(n);
      assert buf[pos + 1..pos + LenSize(n)] == LenBytes(n)[1..] == Magnitude(n);
    }
  }

  /**
   * Every length field the decoder accepts is at least as wide as the one the
   * encoder writes for the same value, and exactly the encoder's when it has
   * that width: the encoder's form is the unique minimal one.
   */
  lemma ParseLenMinimal(buf: seq<Byte>, pos: nat)
    requires pos <= |buf| && ParseLen(buf, pos).Ok?
    ensures var (n, r) := ParseLen(buf, pos).value;
      && r.end - r.start >= LenSize(n)
      && (r.end - r.start == LenSize(n) <==> buf[r.start..r.end] == LenBytes(n))
  {
    var (n, r) := ParseLen(buf, pos).value;
    LenBytesSize(n);
    if buf[pos] >= 0x80 {
      LongFormMinimal(buf, pos, buf[pos] - 0x80, n);
    } else {
      assert buf[r.start..r.end] == [buf[pos]];
    }
  }

  /** The long-form case of `ParseLenMinimal`: a count byte and `count` magnitude bytes holding `n`. */
  lemma LongFormMinimal(buf: seq<Byte>, pos: nat, count: nat, n: Usize)
    requires 1 <= count && pos + 1 + count <= |buf| && buf[pos] == 0x80 + count
    requires n == FromBigEndian(buf[pos + 1..pos + 1 + count])
    ensures 1 + count >= LenSize(n)
    ensures 1 + count == LenSize(n) <==> buf[pos..pos + 1 + count] == LenBytes(n)
  {
    var s := buf[pos + 1..pos + 1 + count];
    LenBytesSize(n);
    FromBigEndianBound(s);
    if n >= 0x80 {
      ByteCountBound(n, count);
      MagnitudeFacts(n);
      if count == ByteCount(n) {
        FromBigEndianInjective(s, Magnitude(n));
        assert buf[pos..pos + 1 + count] == [buf[pos]] + s;
      }
    }
  }

  /** `read_len` over a reader: consumes exactly the length field on success. */
  method ReadLen(reader: Reader) returns (r: Asn1Result<(Usize, Range)>)
    requires reader.Valid()
    modifies reader
    ensures reader.Valid() && old(reader.pos) <= reader.pos
    ensures r == ParseLen(reader.buf, old(reader.pos))
    ensures r.Ok? ==> reader.pos == r.value.1.end
  {
    var start := reader.pos;
    var first :- reader.ReadByte();
    if first < 0x80 {
      return Ok((first, Range(start, reader.pos)));
    }
    var count := first - 0x80;
    if count == 0 {
      return Err(InvalidLength);
    }
    var magnitude :- reader.ReadSlice(count);
    var value := FromBigEndian(magnitude);
    if value >= USIZE_LIMIT {
      return Err(InvalidLength);
    }
    return Ok((value, Range(start, reader.pos)));
  }

  /** `write_len` over a writer: appends `LenBytes(n)` when it fits, else nothing. */
  method WriteLen(n: Usize, writer: Writer) returns (r: Asn1Result<()>)
    requires writer.Valid()
    modifies writer, writer.buf
    ensures writer.Valid()
    ensures r.Ok? <==> old(writer.pos) + LenSize(n) <= writer.buf.Length
    ensures r.Ok? ==> writer.Written() == old(writer.Written()) + LenBytes(n) && writer.pos == old(writer.pos) + LenSize(n)
    ensures r.Err? ==> r.error == BufferOverflow && writer.Written() == old(writer.Written()) && writer.pos == old(writer.pos)
  {
    LenBytesSize(n);
    if n < 0x80 {
      r := writer.WriteByte(n);
    } else {
      r := writer.WriteSlice(LenBytes(n));
    }
  }
}
