/**
 * What every concrete decoder does first (compare the tag byte, then read the
 * length field), and the provenance facts every decoded node satisfies.
 */
module Framing {
  import opened Results
  import opened Asn1
  import opened Length
  import opened Cursor

  /** The length field of a node: its range and the content length it declares. */
  datatype Header = Header(length: Range, len: Usize)

  /** `check_tag!` followed by `read_len`, starting at the tag byte `pos`. */
  function ParseHeader(buf: seq<Byte>, pos: nat, tag: Byte): (r: Asn1Result<Header>)
    requires pos <= |buf|
    ensures r.Ok? ==> pos < |buf| && buf[pos] == tag
    ensures r.Ok? ==> r.value.length.start == pos + 1 < r.value.length.end <= |buf|
    ensures r.Ok? ==> ParseLen(buf, pos + 1) == Ok((r.value.len, r.value.length))
  {
    if pos == |buf| then Err(BufferUnderrun)
    else if buf[pos] != tag then Err(InvalidTag(tag, buf[pos]))
    else
      var field :- ParseLen(buf, pos + 1);
      Ok(Header(field.1, field.0))
  }

  /**
   * The provenance of a node decoded at `pos`: it starts at its tag byte, its
   * length field follows the tag and declares the width of the content range,
   * the content follows the length field, `rawData` is exactly the source
   * bytes from the tag to the end of the content and begins with the tag of
   * the node's type, and the reader stopped no earlier than the content end.
   */
  ghost predicate WellPlaced(buf: seq<Byte>, pos: nat, d: Decoded)
  {
    var n := d.node;
    && pos < d.next <= |buf|
    && n.tag == pos
    && n.length.start == pos + 1
    && n.length.end == n.data.start
    && n.data.start <= n.data.end <= d.next
    && ParseLen(buf, pos + 1).Ok?
    && ParseLen(buf, pos + 1).value.0 == n.data.end - n.data.start
    && ParseLen(buf, pos + 1).value.1 == n.length
    && n.rawData == buf[pos..n.data.end]
    && buf[pos] == TagOf(n.asn1Type)
  }

  /** The buffer holds `bytes` from `pos` on. */
  ghost predicate Holds(buf: seq<Byte>, pos: nat, bytes: seq<Byte>)
  {
    pos + |bytes| <= |buf| && buf[pos..pos + |bytes|] == bytes
  }

  /** `check_tag!`, `read_len`, then `read_data` of a primitive type's content. */
  function ParsePrimitive(buf: seq<Byte>, pos: nat, tag: Byte): (r: Asn1Result<Header>)
    requires pos <= |buf|
    ensures r.Ok? ==> pos < |buf| && buf[pos] == tag
    ensures r.Ok? ==> r.value.length.start == pos + 1 < r.value.length.end
    ensures r.Ok? ==> r.value.length.end + r.value.len <= |buf|
    ensures r.Ok? ==> ParseLen(buf, pos + 1) == Ok((r.value.len, r.value.length))
  {
    var h :- ParseHeader(buf, pos, tag);
    if h.length.end + h.len > |buf| then Err(BufferUnderrun) else Ok(h)
  }

  /** What a primitive type's `encode` writes: tag, length of the content, content. */
  function PrimitiveEncoding(tag: Byte, content: seq<Byte>): seq<Byte>
    requires |content| < USIZE_LIMIT
  {
    [tag] + LenBytes(|content|) + content
  }

  /** A primitive type's `needed_buf_size`: 1 + `len_size(n)` + n for n content bytes. */
  function PrimitiveSize(content: seq<Byte>): nat
  {
    1 + LenSize(|content|) + |content|
  }

  lemma PrimitiveEncodingSize(tag: Byte, content: seq<Byte>)
    requires |content| < USIZE_LIMIT
    ensures |PrimitiveEncoding(tag, content)| == PrimitiveSize(content)
  {
    LenBytesSize(|content|);
  }

  /** Decoding what a primitive `encode` wrote finds the tag, its length field and the content. */
  lemma ParsePrimitiveEncoding(tag: Byte, content: seq<Byte>, buf: seq<Byte>, pos: nat)
    requires |content| < USIZE_LIMIT
    requires pos + PrimitiveSize(content) <= |buf|
    requires buf[pos..pos + PrimitiveSize(content)] == PrimitiveEncoding(tag, content)
    ensures ParsePrimitive(buf, pos, tag) == Ok(Header(Range(pos + 1, pos + 1 + LenSize(|content|)), |content|))
    ensures buf[pos + 1 + LenSize(|content|)..pos + PrimitiveSize(content)] == content
  {
    var n := |content|;
    LenBytesSize(n);
    var lb, size := LenBytes(n), PrimitiveSize(content);
    var w := buf[pos..pos + size];
    assert w == [tag] + lb + content;
    assert buf[pos] == w[0] == tag;
    forall i | 0 <= i < |lb| ensures buf[pos + 1 + i] == lb[i] {
      assert buf[pos + 1 + i] == w[1 + i];
    }
    assert buf[pos + 1..pos + 1 + |lb|] == lb;
    ParseLenBytes(n, buf, pos + 1);
    assert buf[pos + 1 + |lb|..pos + size] == w[1 + |lb|..] == content;
  }

  /**
   * A primitive node whose length field has the encoder's width spans exactly
   * the bytes its `encode` writes for the content it decoded.
   */
  lemma EncodePrimitiveDecoded(buf: seq<Byte>, pos: nat, tag: Byte)
    requires pos <= |buf| && ParsePrimitive(buf, pos, tag).Ok?
    requires var h := ParsePrimitive(buf, pos, tag).value; h.length.end - h.length.start == LenSize(h.len)
    ensures var h := ParsePrimitive(buf, pos, tag).value;
      buf[pos..h.length.end + h.len] == PrimitiveEncoding(tag, buf[h.length.end..h.length.end + h.len])
  {
    var h := ParsePrimitive(buf, pos, tag).value;
    ParseLenMinimal(buf, pos + 1);
    assert buf[pos..h.length.end + h.len]
      == [buf[pos]] + buf[pos + 1..h.length.end] + buf[h.length.end..h.length.end + h.len];
  }

  /**
   * The first two steps of every `encode`: the tag byte, then `write_len`.
   * On overflow the writer holds the bytes before it, possibly followed by
   * the tag.
   */
  method WriteHeader(tag: Byte, n: Usize, writer: Writer) returns (r: Asn1Result<()>)
    requires writer.Valid()
    modifies writer, writer.buf
    ensures writer.Valid()
    ensures r.Ok? <==> old(writer.pos) + 1 + LenSize(n) <= writer.buf.Length
    ensures r.Ok? ==> writer.Written() == old(writer.Written()) + ([tag] + LenBytes(n))
    ensures r.Err? ==>
      && r.error == BufferOverflow
      && (writer.Written() == old(writer.Written()) || writer.Written() == old(writer.Written()) + [tag])
  {
    ghost var before := writer.Written();
    r := writer.WriteByte(tag);
    if r.Err? {
      return;
    }
    r := WriteLen(n, writer);
    if r.Ok? {
      assert writer.Written() == before + [tag] + LenBytes(n);
    }
  }

  /**
   * A primitive type's `encode`: the tag, the length of the content, then the
   * content. It succeeds exactly when `PrimitiveSize(content)` bytes fit, and
   * on overflow what it wrote is a prefix of the encoding.
   */
  method EncodePrimitive(tag: Byte, content: seq<Byte>, writer: Writer) returns (r: Asn1Result<()>)
    requires |content| < USIZE_LIMIT && writer.Valid()
    modifies writer, writer.buf
    ensures writer.Valid()
    ensures r.Ok? <==> old(writer.pos) + PrimitiveSize(content) <= writer.buf.Length
    ensures r.Ok? ==> writer.Written() == old(writer.Written()) + PrimitiveEncoding(tag, content)
    ensures r.Err? ==>
      && r.error == BufferOverflow
      && old(writer.Written()) <= writer.Written() <= old(writer.Written()) + PrimitiveEncoding(tag, content)
  {
    ghost var before, header := writer.Written(), [tag] + LenBytes(|content|);
    ghost var enc := PrimitiveEncoding(tag, content);
    LenBytesSize(|content|);
    assert enc == header + content;
    r := WriteHeader(tag, |content|, writer);
    if r.Err? {
      if writer.Written() == before {
        PrefixOfAppend(before, [], enc);
      } else {
        PrefixOfAppend(before, [tag], enc);
      }
      return;
    }
    r := writer.WriteSlice(content);
    if r.Err? {
      PrefixOfAppend(before, header, enc);
    }
  }
}
