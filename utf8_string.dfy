/**
 * The UTF8String type (tag 0x0C), to the extent a SEQUENCE needs it as a
 * child: its content bytes are carried as they are.
 */
module Utf8StringCodec {
  import opened Results
  import opened Asn1
  import opened Cursor
  import opened Length
  import opened Framing

  /** `compare_tags`: whether `tag` is the UTF8String tag. */
  function CompareTags(tag: Byte): (r: bool)
    ensures r <==> tag == 12
  {
    tag == UTF8_STRING_TAG
  }

  /** `needed_buf_size` for the text bytes: the size of their encoding. */
  function NeededBufSize(text: seq<Byte>): (r: nat)
    ensures |text| < USIZE_LIMIT ==> r == |Encoding(text)|
  {
    if |text| < USIZE_LIMIT then
      PrimitiveEncodingSize(UTF8_STRING_TAG, text);
      PrimitiveSize(text)
    else
      PrimitiveSize(text)
  }

  /** What `encode` writes for the text bytes: the UTF8String tag, then at least one length byte, then the text. */
  function Encoding(text: seq<Byte>): (r: seq<Byte>)
    requires |text| < USIZE_LIMIT
    ensures |r| > |text| && r[0] == UTF8_STRING_TAG
  {
    PrimitiveEncoding(UTF8_STRING_TAG, text)
  }

  /** `decode_asn1` on a buffer, starting at `pos`. */
  function ParseUtf8String(buf: seq<Byte>, pos: nat): (r: Asn1Result<Decoded>)
    requires pos <= |buf|
    ensures r.Ok? ==> WellPlaced(buf, pos, r.value) && r.value.next == r.value.node.data.end
  {
    var h :- ParsePrimitive(buf, pos, UTF8_STRING_TAG);
    var data := Range(h.length.end, h.length.end + h.len);
    Ok(Decoded(Asn1(buf[pos..data.end], pos, h.length, data, Utf8String(buf[data.start..data.end])), data.end))
  }

  /** Decoding what `encode` wrote gives back the text, in a node spanning exactly those bytes. */
  lemma DecodeEncoding(text: seq<Byte>, buf: seq<Byte>, pos: nat)
    requires |text| < USIZE_LIMIT
    requires pos + |Encoding(text)| <= |buf| && buf[pos..pos + |Encoding(text)|] == Encoding(text)
    ensures |Encoding(text)| == NeededBufSize(text)
    ensures var lenEnd := pos + 1 + LenSize(|text|);
      ParseUtf8String(buf, pos) ==
        Ok(Decoded(Asn1(Encoding(text), pos, Range(pos + 1, lenEnd), Range(lenEnd, lenEnd + |text|), Utf8String(text)),
                   lenEnd + |text|))
  {
    PrimitiveEncodingSize(UTF8_STRING_TAG, text);
    ParsePrimitiveEncoding(UTF8_STRING_TAG, text, buf, pos);
  }

  /** Re-encoding a decoded UTF8String whose length field is minimal reproduces its bytes. */
  lemma EncodeDecoded(buf: seq<Byte>, pos: nat, d: Decoded)
    requires pos <= |buf| && ParseUtf8String(buf, pos) == Ok(d)
    requires d.node.length.end - d.node.length.start == LenSize(d.node.data.end - d.node.data.start)
    ensures d.node.asn1Type.Utf8String? && Encoding(d.node.asn1Type.text) == d.node.rawData
  {
    var h := ParsePrimitive(buf, pos, UTF8_STRING_TAG).value;
    var end := h.length.end + h.len;
    assert d.node == Asn1(buf[pos..end], pos, h.length, Range(h.length.end, end), Utf8String(buf[h.length.end..end]));
    EncodePrimitiveDecoded(buf, pos, UTF8_STRING_TAG);
  }

  /** `decode_asn1`: the text bytes with their provenance. */
  method DecodeAsn1(reader: Reader) returns (r: Asn1Result<Asn1>)
    requires reader.Valid()
    modifies reader
    ensures reader.Valid() && old(reader.pos) <= reader.pos
    ensures r == NodeOf(ParseUtf8String(reader.buf, old(reader.pos)))
    ensures r.Ok? ==> reader.pos == ParseUtf8String(reader.buf, old(reader.pos)).value.next
    ensures old(reader.pos) < |reader.buf| && reader.buf[old(reader.pos)] != UTF8_STRING_TAG ==>
      reader.pos == old(reader.pos) + 1
  {
    var tagPosition := reader.pos;
    var _ :- CheckTag(reader, UTF8_STRING_TAG);
    var field :- ReadLen(reader);
    var content :- ReadData(reader, field.0);
    var raw := reader.DataInRange(tagPosition, content.1.end);
    if raw.Err? {
      // The range was just read, so it lies inside the buffer.
      assert false;
    }
    return Ok(Asn1(raw.value, tagPosition, field.1, content.1, Utf8String(content.0)));
  }

  /** `encode`: writes the tag, the length of the text, then the text bytes. */
  method Encode(text: seq<Byte>, writer: Writer) returns (r: Asn1Result<()>)
    requires |text| < USIZE_LIMIT
    requires writer.Valid()
    modifies writer, writer.buf
    ensures writer.Valid()
    ensures r.Ok? <==> old(writer.pos) + NeededBufSize(text) <= writer.buf.Length
    ensures r.Ok? ==> writer.Written() == old(writer.Written()) + Encoding(text)
    ensures r.Err? ==>
      && r.error == BufferOverflow
      && old(writer.Written()) <= writer.Written() <= old(writer.Written()) + Encoding(text)
  {
    r := EncodePrimitive(UTF8_STRING_TAG, text, writer);
  }
}
