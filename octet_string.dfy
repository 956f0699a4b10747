/** The OCTET STRING type (tag 0x04): arbitrary content bytes (section 8.7 of ITU-T X.690). */
module OctetStringCodec {
  import opened Results
  import opened Asn1
  import opened Cursor
  import opened Length
  import opened Framing

  /** `compare_tags`: whether `tag` is the OCTET STRING tag. */
  function CompareTags(tag: Byte): (r: bool)
    ensures r <==> tag == 0x04
  {
    tag == OCTET_STRING_TAG
  }

  /** `From<Vec<u8>>`: an owned octet string holding exactly `data`. */
  function FromBytes(data: seq<Byte>): (t: Asn1Type)
    ensures t.OctetString? && t.octets == data
    ensures Erase(t) == OctetStringValue(data)
  {
    OctetString(data)
  }

  /** `needed_buf_size` for `octets`: the size of their encoding. */
  function NeededBufSize(octets: seq<Byte>): (r: nat)
    ensures |octets| < USIZE_LIMIT ==> r == |Encoding(octets)|
  {
    if |octets| < USIZE_LIMIT then
      PrimitiveEncodingSize(OCTET_STRING_TAG, octets);
      PrimitiveSize(octets)
    else
      PrimitiveSize(octets)
  }

  /** What `encode` writes for `octets`: the OCTET STRING tag, then at least one length byte, then the octets. */
  function Encoding(octets: seq<Byte>): (r: seq<Byte>)
    requires |octets| < USIZE_LIMIT
    ensures |r| > |octets| && r[0] == OCTET_STRING_TAG
  {
    PrimitiveEncoding(OCTET_STRING_TAG, octets)
  }

  /** `encode` writes the tag, the length of the octets, then the octets: `needed_buf_size` bytes. */
  lemma EncodingLayout(octets: seq<Byte>)
    requires |octets| < USIZE_LIMIT
    ensures Encoding(octets) == [0x04] + LenBytes(|octets|) + octets
    ensures |Encoding(octets)| == NeededBufSize(octets) == 1 + LenSize(|octets|) + |octets|
  {
    PrimitiveEncodingSize(OCTET_STRING_TAG, octets);
  }

  /** `decode_asn1` on a buffer, starting at `pos`. */
  function ParseOctetString(buf: seq<Byte>, pos: nat): (r: Asn1Result<Decoded>)
    requires pos <= |buf|
    ensures r.Ok? ==> WellPlaced(buf, pos, r.value) && r.value.next == r.value.node.data.end
  {
    var h :- ParsePrimitive(buf, pos, OCTET_STRING_TAG);
    var data := Range(h.length.end, h.length.end + h.len);
    Ok(Decoded(Asn1(buf[pos..data.end], pos, h.length, data, OctetString(buf[data.start..data.end])), data.end))
  }

  /**
   * The decoder's rules: a leading byte other than 0x04 is refused before the
   * length is read; a decoded node's octets are exactly the `len` bytes after
   * the length field, its content range has width `len`, and its `rawData`
   * runs from the tag byte to the end of the content.
   */
  lemma ParseOctetStringRules(buf: seq<Byte>, pos: nat)
    requires pos < |buf|
    ensures buf[pos] != OCTET_STRING_TAG ==> ParseOctetString(buf, pos) == Err(InvalidTag(OCTET_STRING_TAG, buf[pos]))
    ensures ParseOctetString(buf, pos).Ok? ==>
      var n := ParseOctetString(buf, pos).value.node;
      var len := ParseLen(buf, pos + 1).value.0;
      && n.data == Range(n.length.end, n.length.end + len)
      && n.asn1Type == OctetString(buf[n.length.end..n.length.end + len])
      && n.rawData == buf[pos..n.data.end]
      && n.rawData[0] == OCTET_STRING_TAG
  {
  }

  /** Decoding what `encode` wrote gives back the octets, in a node spanning exactly those bytes. */
  lemma DecodeEncoding(octets: seq<Byte>, buf: seq<Byte>, pos: nat)
    requires |octets| < USIZE_LIMIT
    requires pos + |Encoding(octets)| <= |buf| && buf[pos..pos + |Encoding(octets)|] == Encoding(octets)
    ensures var lenEnd := pos + 1 + LenSize(|octets|);
      ParseOctetString(buf, pos) ==
        Ok(Decoded(Asn1(Encoding(octets), pos, Range(pos + 1, lenEnd), Range(lenEnd, lenEnd + |octets|), OctetString(octets)),
                   lenEnd + |octets|))
  {
    PrimitiveEncodingSize(OCTET_STRING_TAG, octets);
    ParsePrimitiveEncoding(OCTET_STRING_TAG, octets, buf, pos);
  }

  /** Re-encoding a decoded OCTET STRING whose length field is minimal reproduces its bytes. */
  lemma EncodeDecoded(buf: seq<Byte>, pos: nat, d: Decoded)
    requires pos <= |buf| && ParseOctetString(buf, pos) == Ok(d)
    requires d.node.length.end - d.node.length.start == LenSize(d.node.data.end - d.node.data.start)
    ensures d.node.asn1Type.OctetString? && Encoding(d.node.asn1Type.octets) == d.node.rawData
  {
    var h := ParsePrimitive(buf, pos, OCTET_STRING_TAG).value;
    var end := h.length.end + h.len;
    assert d.node == Asn1(buf[pos..end], pos, h.length, Range(h.length.end, end), OctetString(buf[h.length.end..end]));
    EncodePrimitiveDecoded(buf, pos, OCTET_STRING_TAG);
  }

  /**
   * The example buffer `[4, 8, 0, 17, 34, 51, 68, 85, 102, 119]`: tag at 0,
   * length field `[8]` at 1..2, the eight octets as content, a
   * `needed_buf_size` of 10, and re-encoding reproduces the buffer.
   */
  lemma Example()
    ensures var raw: seq<Byte> := [4, 8, 0, 17, 34, 51, 68, 85, 102, 119];
      && ParseOctetString(raw, 0) ==
           Ok(Decoded(Asn1(raw, 0, Range(1, 2), Range(2, 10), OctetString([0, 17, 34, 51, 68, 85, 102, 119])), 10))
      && raw[1..2] == [8]
      && NeededBufSize([0, 17, 34, 51, 68, 85, 102, 119]) == 10
      && Encoding([0, 17, 34, 51, 68, 85, 102, 119]) == raw
  {
    var raw: seq<Byte> := [4, 8, 0, 17, 34, 51, 68, 85, 102, 119];
    var octets: seq<Byte> := [0, 17, 34, 51, 68, 85, 102, 119];
    EncodingLayout(octets);
    assert Encoding(octets) == raw;
    DecodeEncoding(octets, raw, 0);
  }

  /** `decode`: the octets alone, reading the same bytes as `decode_asn1`. */
  method Decode(reader: Reader) returns (r: Asn1Result<seq<Byte>>)
    requires reader.Valid()
    modifies reader
    ensures reader.Valid() && old(reader.pos) <= reader.pos
    ensures var spec := ParseOctetString(reader.buf, old(reader.pos));
      && (r.Ok? <==> spec.Ok?)
      && (r.Ok? ==> r.value == spec.value.node.asn1Type.octets && reader.pos == spec.value.next)
      && (r.Err? ==> r.error == spec.error)
    ensures old(reader.pos) < |reader.buf| && reader.buf[old(reader.pos)] != OCTET_STRING_TAG ==>
      reader.pos == old(reader.pos) + 1
  {
    var _ :- CheckTag(reader, OCTET_STRING_TAG);
    var field :- ReadLen(reader);
    var content :- ReadData(reader, field.0);
    return Ok(content.0);
  }

  /** `decode_asn1`: the octets with their provenance. */
  method DecodeAsn1(reader: Reader) returns (r: Asn1Result<Asn1>)
    requires reader.Valid()
    modifies reader
    ensures reader.Valid() && old(reader.pos) <= reader.pos
    ensures r == NodeOf(ParseOctetString(reader.buf, old(reader.pos)))
    ensures r.Ok? ==> reader.pos == ParseOctetString(reader.buf, old(reader.pos)).value.next
    ensures old(reader.pos) < |reader.buf| && reader.buf[old(reader.pos)] != OCTET_STRING_TAG ==>
      reader.pos == old(reader.pos) + 1
  {
    var tagPosition := reader.pos;
    var _ :- CheckTag(reader, OCTET_STRING_TAG);
    var field :- ReadLen(reader);
    var content :- ReadData(reader, field.0);
    var raw := reader.DataInRange(tagPosition, content.1.end);
    if raw.Err? {
      // The range was just read, so it lies inside the buffer.
      assert false;
    }
    return Ok(Asn1(raw.value, tagPosition, field.1, content.1, OctetString(content.0)));
  }

  /** `encode`: writes the tag, the length of the octets, then the octets. */
  method Encode(octets: seq<Byte>, writer: Writer) returns (r: Asn1Result<()>)
    requires |octets| < USIZE_LIMIT
    requires writer.Valid()
    modifies writer, writer.buf
    ensures writer.Valid()
    ensures r.Ok? <==> old(writer.pos) + NeededBufSize(octets) <= writer.buf.Length
    ensures r.Ok? ==> writer.Written() == old(writer.Written()) + Encoding(octets)
    ensures r.Err? ==>
      && r.error == BufferOverflow
      && old(writer.Written()) <= writer.Written() <= old(writer.Written()) + Encoding(octets)
  {
    r := EncodePrimitive(OCTET_STRING_TAG, octets, writer);
  }
}
