/**
 * The BOOLEAN type (tag 0x01): its content is exactly one byte, 0x00 for
 * false and 0xFF for true (sections 8.2 and 11.1 of ITU-T X.690).
 */
module BoolCodec {
  import opened Results
  import opened Asn1
  import opened Cursor
  import opened Length
  import opened Framing

  /** `compare_tags`: whether `tag` is the BOOLEAN tag. */
  function CompareTags(tag: Byte): (r: bool)
    ensures r <==> tag == 0x01
  {
    tag == BOOL_TAG
  }

  /** `From<bool>`: the BOOLEAN holding `flag`. */
  function FromFlag(flag: bool): (t: Asn1Type)
    ensures t.Bool? && t.flag == flag
    ensures Erase(t) == BoolValue(flag)
  {
    Bool(flag)
  }

  /** The content byte `encode` writes for a flag. */
  function ContentByte(flag: bool): Byte
  {
    if flag then 0xFF else 0x00
  }

  /**
   * `TryFrom<u8>`: exactly the bytes 0x00 and 0xFF are accepted, and each
   * decodes to the flag whose content byte it is.
   */
  function TryFromByte(b: Byte): (r: Asn1Result<bool>)
    ensures r.Ok? <==> b == 0x00 || b == 0xFF
    ensures r.Ok? ==> ContentByte(r.value) == b
    ensures r.Err? ==> r.error == InvalidBoolValue(b)
  {
    match b
    case 0 => Ok(false)
    case 0xFF => Ok(true)
    case _ => Err(InvalidBoolValue(b))
  }

  /** `needed_buf_size`: tag, one length byte, one value byte; the size of either encoding. */
  function NeededBufSize(): (r: nat)
    ensures r == |Encoding(false)| && r == |Encoding(true)|
  {
    3
  }

  /** The bytes `encode` writes: the tag, the length 1, a content byte that reads back as `flag`. */
  function Encoding(flag: bool): (r: seq<Byte>)
    ensures |r| == 3 && r[0] == BOOL_TAG && r[1] == 0x01
    ensures TryFromByte(r[2]) == Ok(flag)
  {
    [BOOL_TAG] + LenBytes(1) + [ContentByte(flag)]
  }

  /** `encode` emits `[0x01, 0x01, 0xFF]` for true and `[0x01, 0x01, 0x00]` for false. */
  lemma EncodingBytes(flag: bool)
    ensures Encoding(flag) == if flag then [0x01, 0x01, 0xFF] else [0x01, 0x01, 0x00]
    ensures |Encoding(flag)| == NeededBufSize()
    ensures TryFromByte(Encoding(flag)[2]) == Ok(flag)
  {
  }

  /** `decode_asn1` on a buffer, starting at `pos`. */
  function ParseBool(buf: seq<Byte>, pos: nat): (r: Asn1Result<Decoded>)
    requires pos <= |buf|
    ensures r.Ok? ==> WellPlaced(buf, pos, r.value) && r.value.next == r.value.node.data.end
  {
    var h :- ParseHeader(buf, pos, BOOL_TAG);
    if h.len != 1 then Err(InvalidBoolLength(h.len))
    else if h.length.end + 1 > |buf| then Err(BufferUnderrun)
    else
      var flag :- TryFromByte(buf[h.length.end]);
      var data := Range(h.length.end, h.length.end + 1);
      Ok(Decoded(Asn1(buf[pos..data.end], pos, h.length, data, Bool(flag)), data.end))
  }

  /**
   * The decoder's rules: a leading byte other than 0x01 is refused before the
   * length is read, a declared length other than 1 is refused, and a decoded
   * node has a one-byte content range holding 0x00 or 0xFF. Its raw bytes run
   * from the tag to the end of the content: three bytes with a short-form
   * length field, more with a long-form one.
   */
  lemma ParseBoolRules(buf: seq<Byte>, pos: nat)
    requires pos < |buf|
    ensures buf[pos] != BOOL_TAG ==> ParseBool(buf, pos) == Err(InvalidTag(BOOL_TAG, buf[pos]))
    ensures buf[pos] == BOOL_TAG && ParseLen(buf, pos + 1).Ok? && ParseLen(buf, pos + 1).value.0 != 1 ==>
      ParseBool(buf, pos) == Err(InvalidBoolLength(ParseLen(buf, pos + 1).value.0))
    ensures ParseBool(buf, pos).Ok? ==>
      var n := ParseBool(buf, pos).value.node;
      && n.data.end == n.data.start + 1
      && n.asn1Type == Bool(buf[n.data.start] == 0xFF)
      && (buf[n.data.start] == 0x00 || buf[n.data.start] == 0xFF)
      && n.rawData == buf[pos..n.data.end]
      && (n.length.end == pos + 2 ==> |n.rawData| == 3)
  {
  }

  /**
   * The decoder also takes a long-form length field: `[0x01, 0x81, 0x01, 0xFF]`
   * is the BOOLEAN true, with length range 1..3, data range 3..4 and all four
   * bytes as its raw data.
   */
  lemma LongFormLength()
    ensures var buf: seq<Byte> := [0x01, 0x81, 0x01, 0xFF];
      ParseBool(buf, 0) == Ok(Decoded(Asn1(buf, 0, Range(1, 3), Range(3, 4), Bool(true)), 4))
  {
    var buf: seq<Byte> := [0x01, 0x81, 0x01, 0xFF];
    assert buf[2..3] == [0x01];
    assert FromBigEndian([0x01]) == 1 by { assert [0x01 as Byte][..0] == []; }
    assert buf[0..4] == buf;
  }

  /** Decoding what `encode` wrote gives back the flag, with a 3-byte node at `pos`. */
  lemma DecodeEncoding(flag: bool, buf: seq<Byte>, pos: nat)
    requires pos + 3 <= |buf| && buf[pos..pos + 3] == Encoding(flag)
    ensures ParseBool(buf, pos) ==
      Ok(Decoded(Asn1(Encoding(flag), pos, Range(pos + 1, pos + 2), Range(pos + 2, pos + 3), Bool(flag)), pos + 3))
  {
    assert buf[pos] == 0x01 && buf[pos + 1] == 0x01 && buf[pos + 2] == ContentByte(flag);
  }

  /** Re-encoding a decoded BOOLEAN whose length field is one byte reproduces its bytes. */
  lemma EncodeDecoded(buf: seq<Byte>, pos: nat, d: Decoded)
    requires pos <= |buf| && ParseBool(buf, pos) == Ok(d)
    requires d.node.length.end == d.node.length.start + 1
    ensures d.node.asn1Type.Bool? && Encoding(d.node.asn1Type.flag) == d.node.rawData
  {
    assert d.node.rawData == [buf[pos], buf[pos + 1], buf[pos + 2]];
  }

  /** `decode`: the flag alone, reading the same bytes as `decode_asn1`. */
  method Decode(reader: Reader) returns (r: Asn1Result<bool>)
    requires reader.Valid()
    modifies reader
    ensures reader.Valid() && old(reader.pos) <= reader.pos
    ensures var spec := ParseBool(reader.buf, old(reader.pos));
      && (r.Ok? <==> spec.Ok?)
      && (r.Ok? ==> r.value == spec.value.node.asn1Type.flag && reader.pos == spec.value.next)
      && (r.Err? ==> r.error == spec.error)
    ensures old(reader.pos) < |reader.buf| && reader.buf[old(reader.pos)] != BOOL_TAG ==>
      reader.pos == old(reader.pos) + 1
  {
    var _ :- CheckTag(reader, BOOL_TAG);
    var field :- ReadLen(reader);
    if field.0 != 1 {
      return Err(InvalidBoolLength(field.0));
    }
    var b :- reader.ReadByte();
    var flag :- TryFromByte(b);
    return Ok(flag);
  }

  /** `decode_asn1`: the flag with its provenance. */
  method DecodeAsn1(reader: Reader) returns (r: Asn1Result<Asn1>)
    requires reader.Valid()
    modifies reader
    ensures reader.Valid() && old(reader.pos) <= reader.pos
    ensures r == NodeOf(ParseBool(reader.buf, old(reader.pos)))
    ensures r.Ok? ==> reader.pos == ParseBool(reader.buf, old(reader.pos)).value.next
    ensures old(reader.pos) < |reader.buf| && reader.buf[old(reader.pos)] != BOOL_TAG ==>
      reader.pos == old(reader.pos) + 1
  {
    var tagPosition := reader.pos;
    var _ :- CheckTag(reader, BOOL_TAG);
    var field :- ReadLen(reader);
    if field.0 != 1 {
      return Err(InvalidBoolLength(field.0));
    }
    var content :- ReadData(reader, field.0);
    var raw := reader.DataInRange(tagPosition, content.1.end);
    if raw.Err? {
      // The range was just read, so it lies inside the buffer.
      assert false;
    }
    var flag :- TryFromByte(content.0[0]);
    return Ok(Asn1(raw.value, tagPosition, field.1, content.1, Bool(flag)));
  }

  /** `encode`: writes the tag, the length 1 and the content byte. */
  method Encode(flag: bool, writer: Writer) returns (r: Asn1Result<()>)
    requires writer.Valid()
    modifies writer, writer.buf
    ensures writer.Valid()
    ensures r.Ok? <==> old(writer.pos) + NeededBufSize() <= writer.buf.Length
    ensures r.Ok? ==> writer.Written() == old(writer.Written()) + Encoding(flag)
    ensures r.Err? ==>
      && r.error == BufferOverflow
      && old(writer.Written()) <= writer.Written() <= old(writer.Written()) + Encoding(flag)
  {
    LenBytesSize(1);
    var _ :- writer.WriteByte(BOOL_TAG);
    var _ :- WriteLen(1, writer);
    r := writer.WriteByte(ContentByte(flag));
  }
}
