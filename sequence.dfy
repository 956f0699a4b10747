/**
 * The SEQUENCE type (tag 0x30, section 8.9 of ITU-T X.690): its content is
 * the concatenation of complete child nodes. This module also holds the
 * dispatch over the closed `Asn1Type` union (decode by tag, encode and size
 * by variant), since a SEQUENCE decodes and encodes its children through it.
 */
module SequenceCodec {
  import opened Results
  import opened Asn1
  import opened Cursor
  import opened Length
  import opened Framing
  import BoolCodec
  import OctetStringCodec
  import Utf8StringCodec

  /** `compare_tags`: whether `tag` is the SEQUENCE tag. */
  function CompareTags(tag: Byte): (r: bool)
    ensures r <==> tag == 0x30
  {
    tag == SEQUENCE_TAG
  }

  // ---------------------------------------------------------------------
  // Sizes and encodings (`needed_buf_size`, `encode`)
  // ---------------------------------------------------------------------

  /** `needed_buf_size` of any value, by variant. */
  function NeededBufSize(t: Asn1Type): nat
    decreases t, if t.Sequence? then |t.fields| + 1 else 0
  {
    match t
    case Bool(_) => BoolCodec.NeededBufSize()
    case OctetString(o) => OctetStringCodec.NeededBufSize(o)
    case Utf8String(s) => Utf8StringCodec.NeededBufSize(s)
    case Sequence(fs) => 1 + LenSize(FieldsSize(fs, 0)) + FieldsSize(fs, 0)
  }

  /** The sum of `needed_buf_size` over the fields from index `k` on. */
  function FieldsSize(fields: seq<Asn1>, k: nat): nat
    requires k <= |fields|
    decreases Asn1Type.Sequence(fields), |fields| - k
  {
    if k == |fields| then 0 else NeededBufSize(fields[k].asn1Type) + FieldsSize(fields, k + 1)
  }

  /** A SEQUENCE's content length: the sum of its fields' `needed_buf_size`. */
  function DataLen(fields: seq<Asn1>): nat
  {
    FieldsSize(fields, 0)
  }

  /**
   * Whether every length the encoder would write fits a `usize`: the octet
   * counts of the strings and the content length of every SEQUENCE inside.
   */
  ghost predicate Encodable(t: Asn1Type)
    decreases t, 1
  {
    match t
    case Bool(_) => true
    case OctetString(o) => |o| < USIZE_LIMIT
    case Utf8String(s) => |s| < USIZE_LIMIT
    case Sequence(fs) => DataLen(fs) < USIZE_LIMIT && AllEncodable(fs)
  }

  /** Whether every field is `Encodable`. */
  ghost predicate AllEncodable(fields: seq<Asn1>)
    decreases Asn1Type.Sequence(fields), 0
  {
    forall i :: 0 <= i < |fields| ==> Encodable(fields[i].asn1Type)
  }

  /** The bytes `encode` writes for any value, by variant. */
  function Encoding(t: Asn1Type): seq<Byte>
    requires Encodable(t)
    decreases t, if t.Sequence? then |t.fields| + 1 else 0
  {
    match t
    case Bool(f) => BoolCodec.Encoding(f)
    case OctetString(o) => OctetStringCodec.Encoding(o)
    case Utf8String(s) => Utf8StringCodec.Encoding(s)
    case Sequence(fs) => [SEQUENCE_TAG] + LenBytes(DataLen(fs)) + FieldsEncoding(fs, 0)
  }

  /** The encodings of the fields from index `k` on, back to back. */
  function FieldsEncoding(fields: seq<Asn1>, k: nat): seq<Byte>
    requires k <= |fields|
    requires AllEncodable(fields)
    decreases Asn1Type.Sequence(fields), |fields| - k
  {
    if k == |fields| then [] else Encoding(fields[k].asn1Type) + FieldsEncoding(fields, k + 1)
  }

  /**
   * `encode` emits exactly `needed_buf_size` bytes, starting with the tag of
   * the value's type; for a SEQUENCE that is 1 + `len_size(S)` + S, where S
   * sums the fields' `needed_buf_size`.
   */
  lemma {:induction false} EncodingSize(t: Asn1Type)
    requires Encodable(t)
    ensures |Encoding(t)| == NeededBufSize(t)
    ensures |Encoding(t)| > 0 && Encoding(t)[0] == TagOf(t)
    ensures t.Sequence? ==> |Encoding(t)| == 1 + LenSize(DataLen(t.fields)) + DataLen(t.fields)
    decreases t, if t.Sequence? then |t.fields| + 1 else 0
  {
    match t
    case Bool(f) =>
      BoolCodec.EncodingBytes(f);
    case OctetString(o) =>
      OctetStringCodec.EncodingLayout(o);
    case Utf8String(s) =>
      PrimitiveEncodingSize(UTF8_STRING_TAG, s);
    case Sequence(fs) =>
      FieldsEncodingSize(fs, 0);
      LenBytesSize(DataLen(fs));
  }

  /** The fields' encodings from index `k` on are `FieldsSize(fields, k)` bytes long. */
  lemma {:induction false} FieldsEncodingSize(fields: seq<Asn1>, k: nat)
    requires k <= |fields|
    requires AllEncodable(fields)
    ensures |FieldsEncoding(fields, k)| == FieldsSize(fields, k)
    decreases Asn1Type.Sequence(fields), |fields| - k
  {
    if k < |fields| {
      EncodingSize(fields[k].asn1Type);
      FieldsEncodingSize(fields, k + 1);
    }
  }

  // ---------------------------------------------------------------------
  // Decoding (`decode_asn1` of the union and of a SEQUENCE)
  // ---------------------------------------------------------------------

  /**
   * `decode_asn1` of the union: the tag byte at `pos` (peeked, not consumed)
   * selects the decoder; any other tag is unsupported.
   */
  function ParseAny(buf: seq<Byte>, pos: nat): (r: Asn1Result<Decoded>)
    requires pos <= |buf|
    ensures r.Ok? ==> pos < r.value.next <= |buf|
    decreases |buf| - pos, 1
  {
    if pos == |buf| then Err(BufferUnderrun)
    else if BoolCodec.CompareTags(buf[pos]) then BoolCodec.ParseBool(buf, pos)
    else if OctetStringCodec.CompareTags(buf[pos]) then OctetStringCodec.ParseOctetString(buf, pos)
    else if Utf8StringCodec.CompareTags(buf[pos]) then Utf8StringCodec.ParseUtf8String(buf, pos)
    else if CompareTags(buf[pos]) then ParseSequence(buf, pos)
    else Err(UnsupportedTag(buf[pos]))
  }

  /**
   * `decode_asn1` of a SEQUENCE at `pos`: the tag, the length field, then
   * fields decoded one after another while fewer than `len` content bytes
   * have been consumed. The node's content range is exactly `len` bytes
   * from the end of the length field; the reader stops after the last field.
   */
  function ParseSequence(buf: seq<Byte>, pos: nat): (r: Asn1Result<Decoded>)
    requires pos <= |buf|
    ensures r.Ok? ==> pos < r.value.next <= |buf|
    decreases |buf| - pos, 0
  {
    var h :- ParseHeader(buf, pos, SEQUENCE_TAG);
    var start := h.length.end;
    var fields :- ParseFields(buf, start, h.len, start);
    var data := Range(start, start + h.len);
    Ok(Decoded(Asn1(buf[pos..data.end], pos, h.length, data, Sequence(fields.0)), fields.1))
  }

  /**
   * The field loop of a SEQUENCE whose content starts at `start` and is `len`
   * bytes long, from `pos` on: the fields it decodes there and the position
   * after the last one, which is at least the end of the content.
   */
  function ParseFields(buf: seq<Byte>, start: nat, len: nat, pos: nat): (r: Asn1Result<(seq<Asn1>, nat)>)
    requires start <= pos <= |buf|
    ensures r.Ok? ==> pos <= r.value.1 <= |buf| && start + len <= r.value.1
    decreases |buf| - pos, 2
  {
    if pos - start >= len then Ok(([], pos))
    else
      var d :- ParseAny(buf, pos);
      var rest :- ParseFields(buf, start, len, d.next);
      Ok(([d.node] + rest.0, rest.1))
  }

  /**
   * What a decoded node says about the buffer it came from, down to the
   * leaves: it is well placed (its tag, length field and `rawData` are the
   * buffer's bytes), a BOOLEAN's content byte is the one for its flag, a
   * string's bytes are its content bytes, and every field of a SEQUENCE is
   * itself such a node.
   */
  ghost predicate Faithful(buf: seq<Byte>, n: Asn1)
    decreases n
  {
    && n.tag < n.length.start == n.tag + 1 < n.length.end == n.data.start <= n.data.end <= |buf|
    && ParseLen(buf, n.tag + 1) == Ok((n.data.end - n.data.start, n.length))
    && n.rawData == buf[n.tag..n.data.end]
    && buf[n.tag] == TagOf(n.asn1Type)
    && match n.asn1Type
       case Bool(f) => n.data.end == n.data.start + 1 && buf[n.data.start] == BoolCodec.ContentByte(f)
       case OctetString(o) => o == buf[n.data.start..n.data.end]
       case Utf8String(s) => s == buf[n.data.start..n.data.end]
       case Sequence(fs) => forall i :: 0 <= i < |fs| ==> Faithful(buf, fs[i])
  }

  /** Every node `decode_asn1` returns is faithful to the buffer it was decoded from. */
  lemma {:induction false} ParseAnyFaithful(buf: seq<Byte>, pos: nat)
    requires pos <= |buf| && ParseAny(buf, pos).Ok?
    ensures Faithful(buf, ParseAny(buf, pos).value.node)
    decreases |buf| - pos, 1
  {
    if CompareTags(buf[pos]) && !BoolCodec.CompareTags(buf[pos])
      && !OctetStringCodec.CompareTags(buf[pos]) && !Utf8StringCodec.CompareTags(buf[pos])
    {
      ParseSequenceFaithful(buf, pos);
    }
  }

  lemma {:induction false} ParseSequenceFaithful(buf: seq<Byte>, pos: nat)
    requires pos <= |buf| && ParseSequence(buf, pos).Ok?
    ensures Faithful(buf, ParseSequence(buf, pos).value.node)
    decreases |buf| - pos, 0
  {
    var h := ParseHeader(buf, pos, SEQUENCE_TAG).value;
    ParseFieldsFaithful(buf, h.length.end, h.len, h.length.end);
  }

  lemma {:induction false} ParseFieldsFaithful(buf: seq<Byte>, start: nat, len: nat, pos: nat)
    requires start <= pos <= |buf| && ParseFields(buf, start, len, pos).Ok?
    ensures var fields := ParseFields(buf, start, len, pos).value.0;
      forall i :: 0 <= i < |fields| ==> Faithful(buf, fields[i])
    decreases |buf| - pos, 2
  {
    if pos - start < len {
      var d := ParseAny(buf, pos).value;
      ParseAnyFaithful(buf, pos);
      ParseFieldsFaithful(buf, start, len, d.next);
    }
  }

  // ---------------------------------------------------------------------
  // Round trip: decoding what `encode` wrote
  // ---------------------------------------------------------------------

  /** `decode_asn1` of the union hands the buffer to the decoder its tag byte selects. */
  lemma ParseAnyDispatch(buf: seq<Byte>, pos: nat)
    requires pos < |buf|
    ensures buf[pos] == BOOL_TAG ==> ParseAny(buf, pos) == BoolCodec.ParseBool(buf, pos)
    ensures buf[pos] == OCTET_STRING_TAG ==> ParseAny(buf, pos) == OctetStringCodec.ParseOctetString(buf, pos)
    ensures buf[pos] == UTF8_STRING_TAG ==> ParseAny(buf, pos) == Utf8StringCodec.ParseUtf8String(buf, pos)
    ensures buf[pos] == SEQUENCE_TAG ==> ParseAny(buf, pos) == ParseSequence(buf, pos)
    ensures buf[pos] !in {BOOL_TAG, OCTET_STRING_TAG, UTF8_STRING_TAG, SEQUENCE_TAG} ==>
      ParseAny(buf, pos) == Err(UnsupportedTag(buf[pos]))
  {
  }

  /**
   * `d` is what decoding the encoding of `t` at `pos` gives back: a node for
   * the same value whose bytes are exactly that encoding, whose length field
   * has the encoder's width, and after which the reader stands.
   */
  ghost predicate DecodedAs(t: Asn1Type, pos: nat, d: Decoded)
    requires Encodable(t)
  {
    && Erase(d.node.asn1Type) == Erase(t)
    && d.node.rawData == Encoding(t)
    && d.node.data.start <= d.node.data.end
    && d.node.length == Range(pos + 1, pos + 1 + LenSize(d.node.data.end - d.node.data.start))
    && d.next == d.node.data.end == pos + |Encoding(t)|
  }

  /**
   * Decoding the bytes `encode` writes for `t`, wherever they sit in a
   * buffer, yields a node for the same value spanning exactly those bytes,
   * and the reader stops right after them.
   */
  lemma {:induction false} DecodeEncoding(t: Asn1Type, buf: seq<Byte>, pos: nat)
    requires Encodable(t) && Holds(buf, pos, Encoding(t))
    ensures ParseAny(buf, pos).Ok? && DecodedAs(t, pos, ParseAny(buf, pos).value)
    decreases t, if t.Sequence? then |t.fields| + 2 else 0
  {
    EncodingSize(t);
    assert buf[pos] == Encoding(t)[0] == TagOf(t);
    ParseAnyDispatch(buf, pos);
    match t
    case Bool(f) =>
      BoolCodec.DecodeEncoding(f, buf, pos);
    case OctetString(o) =>
      OctetStringCodec.DecodeEncoding(o, buf, pos);
    case Utf8String(s) =>
      Utf8StringCodec.DecodeEncoding(s, buf, pos);
    case Sequence(fs) =>
      DecodeSequenceEncoding(fs, buf, pos);
  }

  /** The SEQUENCE case of `DecodeEncoding`, stated on `ParseSequence`. */
  lemma {:induction false} DecodeSequenceEncoding(fields: seq<Asn1>, buf: seq<Byte>, pos: nat)
    requires Encodable(Sequence(fields))
    requires Holds(buf, pos, Encoding(Sequence(fields)))
    ensures ParseSequence(buf, pos).Ok? && DecodedAs(Sequence(fields), pos, ParseSequence(buf, pos).value)
    decreases Asn1Type.Sequence(fields), |fields| + 1
  {
    var n, start := SequenceLayout(fields, buf, pos);
    var nodes := DecodeFieldsEncoding(fields, 0, buf, start, n, start);
    SequenceDecoded(fields, buf, pos, n, start, nodes);
  }

  /** The encoding of a SEQUENCE is its header followed by the encodings of its fields. */
  lemma SequenceLayout(fields: seq<Asn1>, buf: seq<Byte>, pos: nat) returns (n: Usize, start: nat)
    requires Encodable(Sequence(fields))
    requires Holds(buf, pos, Encoding(Sequence(fields)))
    ensures n == DataLen(fields) && start == pos + 1 + LenSize(n)
    ensures |Encoding(Sequence(fields))| == 1 + LenSize(n) + n
    ensures pos <= |buf| && ParseHeader(buf, pos, SEQUENCE_TAG) == Ok(Header(Range(pos + 1, start), n))
    ensures FieldsAt(buf, fields, 0, start, start + n)
    ensures start + n <= |buf| && buf[pos..start + n] == Encoding(Sequence(fields))
  {
    var body := FieldsEncoding(fields, 0);
    FieldsEncodingSize(fields, 0);
    n, start := |body|, pos + 1 + LenSize(|body|);
    assert Encoding(Sequence(fields)) == PrimitiveEncoding(SEQUENCE_TAG, body);
    HeaderLayout(buf, pos, body);
    FieldsAtEncoding(fields, 0, buf, start);
  }

  /** Bytes holding a header and `body` declare the length of `body`, which follows the header. */
  lemma HeaderLayout(buf: seq<Byte>, pos: nat, body: seq<Byte>)
    requires |body| < USIZE_LIMIT && Holds(buf, pos, PrimitiveEncoding(SEQUENCE_TAG, body))
    ensures var start := pos + 1 + LenSize(|body|);
      && |PrimitiveEncoding(SEQUENCE_TAG, body)| == 1 + LenSize(|body|) + |body|
      && ParseHeader(buf, pos, SEQUENCE_TAG) == Ok(Header(Range(pos + 1, start), |body|))
      && Holds(buf, start, body)
  {
    PrimitiveEncodingSize(SEQUENCE_TAG, body);
    ParsePrimitiveEncoding(SEQUENCE_TAG, body, buf, pos);
  }

  /** Once the field loop finds nodes for the fields' values, `ParseSequence` gives back the SEQUENCE. */
  lemma SequenceDecoded(fields: seq<Asn1>, buf: seq<Byte>, pos: nat, n: Usize, start: nat, nodes: seq<Asn1>)
    requires Encodable(Sequence(fields))
    requires n == DataLen(fields) && start == pos + 1 + LenSize(n)
    requires |Encoding(Sequence(fields))| == 1 + LenSize(n) + n
    requires pos <= |buf| && ParseHeader(buf, pos, SEQUENCE_TAG) == Ok(Header(Range(pos + 1, start), n))
    requires start + n <= |buf| && buf[pos..start + n] == Encoding(Sequence(fields))
    requires ParseFields(buf, start, n, start) == Ok((nodes, start + n))
    requires Erased(nodes) == Erased(fields[0..])
    ensures ParseSequence(buf, pos).Ok? && DecodedAs(Sequence(fields), pos, ParseSequence(buf, pos).value)
  {
    ParseSequenceFrom(buf, pos, Range(pos + 1, start), n, nodes, start + n);
    SequenceDecodedAs(fields, pos, nodes);
  }

  /** `ParseSequence` assembles the node from the header it read and the nodes its field loop found. */
  lemma ParseSequenceFrom(buf: seq<Byte>, pos: nat, length: Range, n: Usize, nodes: seq<Asn1>, next: nat)
    requires pos <= |buf| && ParseHeader(buf, pos, SEQUENCE_TAG) == Ok(Header(length, n))
    requires length.end <= |buf| && ParseFields(buf, length.end, n, length.end) == Ok((nodes, next))
    ensures length.end + n <= |buf|
    ensures ParseSequence(buf, pos)
      == Ok(Decoded(Asn1(buf[pos..length.end + n], pos, length, Range(length.end, length.end + n), Sequence(nodes)), next))
  {
  }

  /** A SEQUENCE node over the encoding of `fields`, holding the same values, is what decoding gives back. */
  lemma SequenceDecodedAs(fields: seq<Asn1>, pos: nat, nodes: seq<Asn1>)
    requires Encodable(Sequence(fields))
    requires Erased(nodes) == Erased(fields[0..])
    requires |Encoding(Sequence(fields))| == 1 + LenSize(DataLen(fields)) + DataLen(fields)
    ensures var n := DataLen(fields); var start := pos + 1 + LenSize(n);
      DecodedAs(Sequence(fields), pos,
        Decoded(Asn1(Encoding(Sequence(fields)), pos, Range(pos + 1, start), Range(start, start + n), Sequence(nodes)), start + n))
  {
    assert fields[0..] == fields;
  }

  /** `ParseSequence` assembles the node from its header and its field loop. */
  lemma ParseSequenceParts(buf: seq<Byte>, pos: nat)
    requires pos <= |buf| && ParseHeader(buf, pos, SEQUENCE_TAG).Ok?
    requires var h := ParseHeader(buf, pos, SEQUENCE_TAG).value;
      ParseFields(buf, h.length.end, h.len, h.length.end).Ok?
    ensures var h := ParseHeader(buf, pos, SEQUENCE_TAG).value;
      var r := ParseFields(buf, h.length.end, h.len, h.length.end).value;
      var data := Range(h.length.end, h.length.end + h.len);
      ParseSequence(buf, pos) == Ok(Decoded(Asn1(buf[pos..data.end], pos, h.length, data, Sequence(r.0)), r.1))
  {
  }

  /**
   * The encodings of fields `k..` lie back to back in `buf` from `pos`,
   * ending exactly at `end`.
   */
  ghost predicate FieldsAt(buf: seq<Byte>, fields: seq<Asn1>, k: nat, pos: nat, end: nat)
    requires AllEncodable(fields) && k <= |fields|
    decreases |fields| - k
  {
    && pos <= end <= |buf|
    && if k == |fields| then pos == end
       else
         var e := Encoding(fields[k].asn1Type);
         Holds(buf, pos, e) && FieldsAt(buf, fields, k + 1, pos + |e|, end)
  }

  /** Bytes holding the concatenated field encodings hold each field's encoding in turn. */
  lemma {:induction false} FieldsAtEncoding(fields: seq<Asn1>, k: nat, buf: seq<Byte>, pos: nat)
    requires AllEncodable(fields) && k <= |fields|
    requires Holds(buf, pos, FieldsEncoding(fields, k))
    ensures FieldsAt(buf, fields, k, pos, pos + |FieldsEncoding(fields, k)|)
    decreases |fields| - k
  {
    if k < |fields| {
      var e, tail := Encoding(fields[k].asn1Type), FieldsEncoding(fields, k + 1);
      assert FieldsEncoding(fields, k) == e + tail;
      SliceSplit(buf, pos, e, tail);
      FieldsAtEncoding(fields, k + 1, buf, pos + |e|);
    }
  }

  /**
   * The field loop, from the start of field `k` of `fields`, finds the
   * remaining fields again when the buffer holds their encodings back to back
   * up to the end of the content.
   */
  lemma {:induction false} DecodeFieldsEncoding(fields: seq<Asn1>, k: nat, buf: seq<Byte>, start: nat, len: nat, pos: nat)
    returns (nodes: seq<Asn1>)
    requires AllEncodable(fields) && k <= |fields| && start <= pos
    requires FieldsAt(buf, fields, k, pos, start + len)
    ensures ParseFields(buf, start, len, pos) == Ok((nodes, start + len))
    ensures Erased(nodes) == Erased(fields[k..])
    decreases Asn1Type.Sequence(fields), |fields| - k
  {
    if k == |fields| {
      nodes := FieldsEnd(fields, k, buf, start, len, pos);
    } else {
      var d := DecodeFieldEncoding(fields, k, buf, start, len, pos);
      var rest := DecodeFieldsEncoding(fields, k + 1, buf, start, len, d.next);
      FieldStep(fields, k, buf, start, len, pos, d, rest);
      nodes := [d.node] + rest;
    }
  }

  /** The field loop ends once the content is consumed. */
  lemma FieldsEnd(fields: seq<Asn1>, k: nat, buf: seq<Byte>, start: nat, len: nat, pos: nat) returns (nodes: seq<Asn1>)
    requires k == |fields| && start + len == pos <= |buf|
    ensures ParseFields(buf, start, len, pos) == Ok((nodes, start + len))
    ensures Erased(nodes) == Erased(fields[k..])
  {
    assert fields[k..] == [];
    nodes := [];
  }

  /** The field loop's body on the encodings of fields `k..`: it finds field `k` and stops before the rest. */
  lemma {:induction false} DecodeFieldEncoding(fields: seq<Asn1>, k: nat, buf: seq<Byte>, start: nat, len: nat, pos: nat)
    returns (d: Decoded)
    requires AllEncodable(fields) && k < |fields| && start <= pos
    requires FieldsAt(buf, fields, k, pos, start + len)
    ensures ParseAny(buf, pos) == Ok(d) && start <= pos < d.next <= |buf| && pos - start < len
    ensures FieldsAt(buf, fields, k + 1, d.next, start + len)
    ensures Erase(d.node.asn1Type) == Erase(fields[k].asn1Type)
    decreases Asn1Type.Sequence(fields), 0
  {
    var f := fields[k].asn1Type;
    DecodeEncoding(f, buf, pos);
    d := ParseAny(buf, pos).value;
    assert DecodedAs(f, pos, d);
  }

  /** One turn of the field loop over encodings: field `k`, then the nodes found for the fields after it. */
  lemma FieldStep(fields: seq<Asn1>, k: nat, buf: seq<Byte>, start: nat, len: nat, pos: nat, d: Decoded, rest: seq<Asn1>)
    requires k < |fields| && start <= pos < d.next <= |buf| && pos - start < len
    requires ParseAny(buf, pos) == Ok(d) && ParseFields(buf, start, len, d.next) == Ok((rest, start + len))
    requires Erase(d.node.asn1Type) == Erase(fields[k].asn1Type) && Erased(rest) == Erased(fields[k + 1..])
    ensures ParseFields(buf, start, len, pos) == Ok(([d.node] + rest, start + len))
    ensures Erased([d.node] + rest) == Erased(fields[k..])
  {
    FieldsCons(buf, start, len, pos);
    ErasedStep(d.node, rest, fields, k);
  }

  /** One turn of the field loop: a field is decoded whenever the content is not yet consumed. */
  lemma FieldsCons(buf: seq<Byte>, start: nat, len: nat, pos: nat)
    requires start <= pos <= |buf| && pos - start < len && ParseAny(buf, pos).Ok?
    requires ParseFields(buf, start, len, ParseAny(buf, pos).value.next).Ok?
    ensures var d := ParseAny(buf, pos).value; var r := ParseFields(buf, start, len, d.next).value;
      ParseFields(buf, start, len, pos) == Ok(([d.node] + r.0, r.1))
  {
  }

  /** A node for the value of field `k`, followed by nodes for the later fields, holds the values from `k` on. */
  lemma ErasedStep(node: Asn1, nodes: seq<Asn1>, fields: seq<Asn1>, k: nat)
    requires k < |fields| && Erase(node.asn1Type) == Erase(fields[k].asn1Type)
    requires Erased(nodes) == Erased(fields[k + 1..])
    ensures Erased([node] + nodes) == Erased(fields[k..])
  {
    ErasedAppend([node], nodes);
    ErasedAppend([fields[k]], fields[k + 1..]);
    assert [fields[k]] + fields[k + 1..] == fields[k..];
    assert Erased([node]) == Erased([fields[k]]);
  }

  /** Bytes that hold `a + b` hold `a` and then `b`. */
  lemma SliceSplit(buf: seq<Byte>, pos: nat, a: seq<Byte>, b: seq<Byte>)
    requires Holds(buf, pos, a + b)
    ensures Holds(buf, pos, a) && Holds(buf, pos + |a|, b)
  {
    assert buf[pos..pos + |a|] == buf[pos..pos + |a| + |b|][..|a|];
    assert buf[pos + |a|..pos + |a| + |b|] == buf[pos..pos + |a| + |b|][|a|..];
  }

  // ---------------------------------------------------------------------
  // The reader and writer operations
  // ---------------------------------------------------------------------

  /** The field loop's result with `fields` decoded before it. */
  function Prepend(fields: seq<Asn1>, r: Asn1Result<(seq<Asn1>, nat)>): Asn1Result<(seq<Asn1>, nat)>
  {
    if r.Ok? then Ok((fields + r.value.0, r.value.1)) else r
  }

  /** Before the first field nothing has been decoded. */
  lemma PrependNothing(r: Asn1Result<(seq<Asn1>, nat)>)
    ensures Prepend([], r) == r
  {
    if r.Ok? {
      assert [] + r.value.0 == r.value.0;
    }
  }

  /** One turn of the field loop: the field decoded at `pos` joins those before it, or its error ends the loop. */
  lemma PrependStep(fields: seq<Asn1>, buf: seq<Byte>, start: nat, len: nat, pos: nat)
    requires start <= pos <= |buf| && pos - start < len
    ensures ParseAny(buf, pos).Err? ==>
      Prepend(fields, ParseFields(buf, start, len, pos)) == Err(ParseAny(buf, pos).error)
    ensures ParseAny(buf, pos).Ok? ==>
      var d := ParseAny(buf, pos).value;
      Prepend(fields, ParseFields(buf, start, len, pos)) == Prepend(fields + [d.node], ParseFields(buf, start, len, d.next))
  {
    if ParseAny(buf, pos).Ok? {
      var d := ParseAny(buf, pos).value;
      var rest := ParseFields(buf, start, len, d.next);
      if rest.Ok? {
        assert fields + ([d.node] + rest.value.0) == fields + [d.node] + rest.value.0;
      }
    }
  }

  /** The loop stops once `len` content bytes have been consumed. */
  lemma PrependEnd(fields: seq<Asn1>, buf: seq<Byte>, start: nat, len: nat, pos: nat)
    requires start <= pos <= |buf| && pos - start >= len
    ensures Prepend(fields, ParseFields(buf, start, len, pos)) == Ok((fields, pos))
  {
    assert fields + [] == fields;
  }

  /** `decode_asn1` of the union: peeks the tag and hands the reader to that type's decoder. */
  method DecodeAny(reader: Reader) returns (r: Asn1Result<Asn1>)
    requires reader.Valid()
    modifies reader
    ensures reader.Valid() && old(reader.pos) <= reader.pos
    ensures r == NodeOf(ParseAny(reader.buf, old(reader.pos)))
    ensures r.Ok? ==> reader.pos == ParseAny(reader.buf, old(reader.pos)).value.next
    decreases |reader.buf| - reader.pos, 1
  {
    var tag :- reader.PeekByte();
    if BoolCodec.CompareTags(tag) {
      r := BoolCodec.DecodeAsn1(reader);
    } else if OctetStringCodec.CompareTags(tag) {
      r := OctetStringCodec.DecodeAsn1(reader);
    } else if Utf8StringCodec.CompareTags(tag) {
      r := Utf8StringCodec.DecodeAsn1(reader);
    } else if CompareTags(tag) {
      r := DecodeAsn1(reader);
    } else {
      r := Err(UnsupportedTag(tag));
    }
  }

  /** `decode_asn1` of a SEQUENCE: its fields with their provenance, and its own. */
  method DecodeAsn1(reader: Reader) returns (r: Asn1Result<Asn1>)
    requires reader.Valid()
    modifies reader
    ensures reader.Valid() && old(reader.pos) <= reader.pos
    ensures r == NodeOf(ParseSequence(reader.buf, old(reader.pos)))
    ensures r.Ok? ==> reader.pos == ParseSequence(reader.buf, old(reader.pos)).value.next
    ensures old(reader.pos) < |reader.buf| && reader.buf[old(reader.pos)] != SEQUENCE_TAG ==>
      reader.pos == old(reader.pos) + 1
    decreases |reader.buf| - reader.pos, 0
  {
    var tagPosition := reader.pos;
    var _ :- CheckTag(reader, SEQUENCE_TAG);
    var field :- ReadLen(reader);
    var len, lenRange := field.0, field.1;
    var dataRange := Range(lenRange.end, lenRange.end + len);
    var fields: seq<Asn1> := [];
    var position := reader.pos;
    PrependNothing(ParseFields(reader.buf, position, len, position));
    while reader.pos - position < len
      invariant reader.Valid() && tagPosition < position <= reader.pos
      invariant ParseFields(reader.buf, position, len, position) == Prepend(fields, ParseFields(reader.buf, position, len, reader.pos))
      decreases |reader.buf| - reader.pos
    {
      PrependStep(fields, reader.buf, position, len, reader.pos);
      var f :- DecodeAny(reader);
      fields := fields + [f];
    }
    PrependEnd(fields, reader.buf, position, len, reader.pos);
    assert ParseHeader(reader.buf, tagPosition, SEQUENCE_TAG) == Ok(Header(lenRange, len));
    ParseSequenceFrom(reader.buf, tagPosition, lenRange, len, fields, reader.pos);
    var raw := reader.DataInRange(tagPosition, lenRange.end + len);
    if raw.Err? {
      // The loop ran past the end of the content, so the range lies inside the buffer.
      assert false;
    }
    return Ok(Asn1(raw.value, tagPosition, lenRange, dataRange, Sequence(fields)));
  }

  /** `decode`: the fields alone, reading the same bytes as `decode_asn1`. */
  method Decode(reader: Reader) returns (r: Asn1Result<seq<Asn1>>)
    requires reader.Valid()
    modifies reader
    ensures reader.Valid() && old(reader.pos) <= reader.pos
    ensures var spec := ParseSequence(reader.buf, old(reader.pos));
      && (r.Ok? <==> spec.Ok?)
      && (r.Ok? ==> r.value == spec.value.node.asn1Type.fields && reader.pos == spec.value.next)
      && (r.Err? ==> r.error == spec.error)
    ensures old(reader.pos) < |reader.buf| && reader.buf[old(reader.pos)] != SEQUENCE_TAG ==>
      reader.pos == old(reader.pos) + 1
    decreases |reader.buf| - reader.pos, 0
  {
    var _ :- CheckTag(reader, SEQUENCE_TAG);
    var field :- ReadLen(reader);
    var len := field.0;
    var fields: seq<Asn1> := [];
    var position := reader.pos;
    PrependNothing(ParseFields(reader.buf, position, len, position));
    while reader.pos - position < len
      invariant reader.Valid() && old(reader.pos) < position <= reader.pos
      invariant ParseFields(reader.buf, position, len, position) == Prepend(fields, ParseFields(reader.buf, position, len, reader.pos))
      decreases |reader.buf| - reader.pos
    {
      PrependStep(fields, reader.buf, position, len, reader.pos);
      var f :- DecodeAny(reader);
      fields := fields + [f];
    }
    PrependEnd(fields, reader.buf, position, len, reader.pos);
    return Ok(fields);
  }

  /** `encode` of the union: the encoder of the value's own type. */
  method EncodeAny(t: Asn1Type, writer: Writer) returns (r: Asn1Result<()>)
    requires Encodable(t) && writer.Valid()
    modifies writer, writer.buf
    ensures writer.Valid()
    ensures r.Ok? <==> old(writer.pos) + NeededBufSize(t) <= writer.buf.Length
    ensures r.Ok? ==> writer.Written() == old(writer.Written()) + Encoding(t)
    ensures r.Err? ==>
      && r.error == BufferOverflow
      && old(writer.Written()) <= writer.Written() <= old(writer.Written()) + Encoding(t)
    decreases t, 2
  {
    match t
    case Bool(f) =>
      r := BoolCodec.Encode(f, writer);
    case OctetString(o) =>
      r := OctetStringCodec.Encode(o, writer);
    case Utf8String(s) =>
      r := Utf8StringCodec.Encode(s, writer);
    case Sequence(fs) =>
      r := Encode(fs, writer);
  }

  /**
   * `encode` of a SEQUENCE: the tag, the length of the fields' encodings, then
   * each field in order; on overflow what it wrote is a prefix of the encoding.
   */
  method Encode(fields: seq<Asn1>, writer: Writer) returns (r: Asn1Result<()>)
    requires Encodable(Sequence(fields)) && writer.Valid()
    modifies writer, writer.buf
    ensures writer.Valid()
    ensures r.Ok? <==> old(writer.pos) + NeededBufSize(Sequence(fields)) <= writer.buf.Length
    ensures r.Ok? ==> writer.Written() == old(writer.Written()) + Encoding(Sequence(fields))
    ensures r.Err? ==>
      && r.error == BufferOverflow
      && old(writer.Written()) <= writer.Written() <= old(writer.Written()) + Encoding(Sequence(fields))
    decreases Asn1Type.Sequence(fields), 1
  {
    ghost var before, enc := writer.Written(), Encoding(Sequence(fields));
    var dataLen := DataLen(fields);
    ghost var header := [SEQUENCE_TAG] + LenBytes(dataLen);
    EncodingSize(Sequence(fields));
    FieldsEncodingSize(fields, 0);
    LenBytesSize(dataLen);
    assert enc == header + FieldsEncoding(fields, 0);
    r := WriteHeader(SEQUENCE_TAG, dataLen, writer);
    if r.Err? {
      if writer.Written() == before {
        PrefixOfAppend(before, [], enc);
      } else {
        PrefixOfAppend(before, [SEQUENCE_TAG], enc);
      }
      assert before <= writer.Written() <= before + enc;
      assert writer.buf.Length < |before| + |enc|;
      return;
    }
    r := EncodeFields(fields, writer);
    if r.Err? {
      PrefixAfter(before, header, FieldsEncoding(fields, 0), writer.Written());
      assert before <= writer.Written() <= before + enc;
      assert writer.buf.Length < |before| + |enc|;
    } else {
      assert writer.Written() == before + enc;
    }
  }

  /** The `try_for_each` over the fields: each field's `encode`, in order. */
  method EncodeFields(fields: seq<Asn1>, writer: Writer) returns (r: Asn1Result<()>)
    requires AllEncodable(fields) && writer.Valid()
    modifies writer, writer.buf
    ensures writer.Valid()
    ensures r.Ok? <==> old(writer.pos) + |FieldsEncoding(fields, 0)| <= writer.buf.Length
    ensures r.Ok? ==> writer.Written() == old(writer.Written()) + FieldsEncoding(fields, 0)
    ensures r.Err? ==>
      && r.error == BufferOverflow
      && old(writer.Written()) <= writer.Written() <= old(writer.Written()) + FieldsEncoding(fields, 0)
    decreases Asn1Type.Sequence(fields), 0
  {
    ghost var before, enc := writer.Written(), FieldsEncoding(fields, 0);
    r := Ok(());
    var i := 0;
    assert before + enc == writer.Written() + FieldsEncoding(fields, i);
    while i < |fields|
      invariant 0 <= i <= |fields| && writer.Valid() && r.Ok?
      invariant before <= writer.Written()
      invariant writer.Written() + FieldsEncoding(fields, i) == before + enc
      decreases |fields| - i
    {
      ghost var done, rest := writer.Written(), FieldsEncoding(fields, i + 1);
      var f := fields[i].asn1Type;
      ghost var e := Encoding(f);
      EncodingSize(f);
      assert FieldsEncoding(fields, i) == e + rest;
      assert done + e + rest == before + enc;
      r := EncodeAny(f, writer);
      if r.Err? {
        PrefixStep(before, done, e, rest, writer.Written());
        assert |done| + |e| <= |before| + |enc|;
        assert writer.buf.Length < |before| + |enc|;
        return;
      }
      assert writer.Written() + rest == before + enc;
      i := i + 1;
    }
  }

  // ---------------------------------------------------------------------
  // Properties of the SEQUENCE decoder and encoder
  // ---------------------------------------------------------------------

  /**
   * The decoder's rules: a leading byte other than 0x30 is refused before the
   * length is read; a decoded node starts at its tag, records the length
   * field's range, has the `len` bytes after the length field as its content
   * range and `rawData` from the tag to the end of that range, holds the
   * fields the field loop found, and leaves the reader after the last field.
   */
  lemma ParseSequenceRules(buf: seq<Byte>, pos: nat)
    requires pos < |buf|
    ensures buf[pos] != SEQUENCE_TAG ==> ParseSequence(buf, pos) == Err(InvalidTag(SEQUENCE_TAG, buf[pos]))
    ensures ParseSequence(buf, pos).Ok? ==>
      var d := ParseSequence(buf, pos).value;
      var (len, lenRange) := ParseLen(buf, pos + 1).value;
      var loop := ParseFields(buf, lenRange.end, len, lenRange.end);
      && buf[pos] == SEQUENCE_TAG
      && d.node.tag == pos
      && d.node.length == lenRange
      && d.node.data == Range(lenRange.end, lenRange.end + len)
      && d.node.rawData == buf[pos..lenRange.end + len]
      && loop.Ok?
      && d.node.asn1Type == Sequence(loop.value.0)
      && d.next == loop.value.1 >= d.node.data.end
  {
  }

  /** A SEQUENCE whose length field declares 0 content bytes has no fields. */
  lemma EmptySequence(buf: seq<Byte>, pos: nat)
    requires pos + 2 <= |buf| && buf[pos] == SEQUENCE_TAG && buf[pos + 1] == 0
    ensures ParseSequence(buf, pos) ==
      Ok(Decoded(Asn1(buf[pos..pos + 2], pos, Range(pos + 1, pos + 2), Range(pos + 2, pos + 2), Sequence([])), pos + 2))
  {
    assert ParseHeader(buf, pos, SEQUENCE_TAG) == Ok(Header(Range(pos + 1, pos + 2), 0));
  }

  /**
   * The field loop does not stop at the end of the content: in
   * `[0x30, 0x01, 0x01, 0x01, 0xFF]` the SEQUENCE declares one content byte,
   * yet its only field, the BOOLEAN `[0x01, 0x01, 0xFF]`, runs two bytes past
   * it; the node is accepted with content range 2..3 and `rawData`
   * `[0x30, 0x01, 0x01]`, and the reader stops at 5.
   */
  lemma Overshoot()
    ensures var buf: seq<Byte> := [0x30, 0x01, 0x01, 0x01, 0xFF];
      var child := Asn1([0x01, 0x01, 0xFF], 2, Range(3, 4), Range(4, 5), Bool(true));
      && ParseSequence(buf, 0) == Ok(Decoded(Asn1([0x30, 0x01, 0x01], 0, Range(1, 2), Range(2, 3), Sequence([child])), 5))
      && child.data.end > 3
  {
    var buf: seq<Byte> := [0x30, 0x01, 0x01, 0x01, 0xFF];
    var child := Asn1([0x01, 0x01, 0xFF], 2, Range(3, 4), Range(4, 5), Bool(true));
    BoolCodec.EncodingBytes(true);
    assert buf[2..5] == BoolCodec.Encoding(true);
    BoolCodec.DecodeEncoding(true, buf, 2);
    assert ParseAny(buf, 2) == Ok(Decoded(child, 5));
    assert ParseFields(buf, 2, 1, 5) == Ok(([], 5));
    FieldsCons(buf, 2, 1, 2);
    assert [child] + [] == [child];
    assert ParseFields(buf, 2, 1, 2) == Ok(([child], 5));
    assert ParseHeader(buf, 0, SEQUENCE_TAG) == Ok(Header(Range(1, 2), 1));
    ParseSequenceParts(buf, 0);
    assert buf[0..3] == [0x30, 0x01, 0x01];
  }

  /**
   * A declared length of 2^64 - 1, written in eight bytes, is a valid `usize`,
   * so the header of `[0x30, 0x88, 0xFF, .., 0xFF]` parses; the content end
   * `len_range.end + len` lies beyond 2^64 and the field loop finds no bytes.
   */
  lemma HugeLength()
    ensures var buf: seq<Byte> := [0x30, 0x88, 0xFF, 0xFF, 0xFF, 0xFF, 0xFF, 0xFF, 0xFF, 0xFF];
      var h := ParseHeader(buf, 0, SEQUENCE_TAG);
      && h == Ok(Header(Range(1, 10), USIZE_LIMIT - 1))
      && h.value.length.end + h.value.len >= USIZE_LIMIT
      && ParseSequence(buf, 0) == Err(BufferUnderrun)
  {
    var buf: seq<Byte> := [0x30, 0x88, 0xFF, 0xFF, 0xFF, 0xFF, 0xFF, 0xFF, 0xFF, 0xFF];
    var m := buf[2..10];
    assert Pow256(8) == USIZE_LIMIT;
    FromBigEndianAllOnes(m);
    assert ParseLen(buf, 1) == Ok((FromBigEndian(m), Range(1, 10)));
  }

  /** The 29 bytes of the example: a SEQUENCE of an OCTET STRING and a UTF8String. */
  const EXAMPLE: seq<Byte> := [48, 27, 4, 8, 0, 17, 34, 51, 68, 85, 102, 119, 12, 15, 116, 104, 101, 98, 101, 115,
                               116, 116, 118, 97, 114, 121, 110, 107, 97]
  const EXAMPLE_OCTETS: seq<Byte> := [0, 17, 34, 51, 68, 85, 102, 119]
  /** "thebesttvarynka" */
  const EXAMPLE_TEXT: seq<Byte> := [116, 104, 101, 98, 101, 115, 116, 116, 118, 97, 114, 121, 110, 107, 97]

  /** The example's two fields, as they sit in the 29 bytes. */
  lemma ExampleLayout()
    ensures EXAMPLE[2..12] == [4, 8] + EXAMPLE_OCTETS
    ensures EXAMPLE[12..29] == [12, 15] + EXAMPLE_TEXT
  {
    assert EXAMPLE == [48, 27] + ([4, 8] + EXAMPLE_OCTETS) + ([12, 15] + EXAMPLE_TEXT);
  }

  /** The example's fields are the encodings of their contents, each with a one-byte length field. */
  lemma ExampleEncodings()
    ensures OctetStringCodec.Encoding(EXAMPLE_OCTETS) == [4, 8] + EXAMPLE_OCTETS
    ensures Utf8StringCodec.Encoding(EXAMPLE_TEXT) == [12, 15] + EXAMPLE_TEXT
  {
    assert LenBytes(|EXAMPLE_OCTETS|) == [8];
    assert LenBytes(|EXAMPLE_TEXT|) == [15];
    assert [4] + [8] + EXAMPLE_OCTETS == [4, 8] + EXAMPLE_OCTETS;
    assert [12] + [15] + EXAMPLE_TEXT == [12, 15] + EXAMPLE_TEXT;
  }

  /** The example's first field: the OCTET STRING at 2, content 4..12. */
  lemma ExampleFirst()
    ensures ParseAny(EXAMPLE, 2) ==
      Ok(Decoded(Asn1([4, 8] + EXAMPLE_OCTETS, 2, Range(3, 4), Range(4, 12), OctetString(EXAMPLE_OCTETS)), 12))
  {
    ExampleLayout();
    ExampleEncodings();
    OctetStringCodec.DecodeEncoding(EXAMPLE_OCTETS, EXAMPLE, 2);
  }

  /** The example's second field: the UTF8String at 12, content 14..29. */
  lemma ExampleSecond()
    ensures ParseAny(EXAMPLE, 12) ==
      Ok(Decoded(Asn1([12, 15] + EXAMPLE_TEXT, 12, Range(13, 14), Range(14, 29), Utf8String(EXAMPLE_TEXT)), 29))
  {
    ExampleLayout();
    ExampleEncodings();
    Utf8StringCodec.DecodeEncoding(EXAMPLE_TEXT, EXAMPLE, 12);
  }

  /**
   * The 29-byte example decodes to a SEQUENCE at 0 with length field 1..2 and
   * content 2..29, holding the OCTET STRING `[0, 17, 34, 51, 68, 85, 102, 119]`
   * (tag 2, length 3..4, content 4..12) and the UTF8String "thebesttvarynka"
   * (tag 12, length 13..14, content 14..29).
   */
  lemma Example()
    ensures var first := Asn1([4, 8] + EXAMPLE_OCTETS, 2, Range(3, 4), Range(4, 12), OctetString(EXAMPLE_OCTETS));
      var second := Asn1([12, 15] + EXAMPLE_TEXT, 12, Range(13, 14), Range(14, 29), Utf8String(EXAMPLE_TEXT));
      ParseSequence(EXAMPLE, 0) == Ok(Decoded(Asn1(EXAMPLE, 0, Range(1, 2), Range(2, 29), Sequence([first, second])), 29))
  {
    var first := Asn1([4, 8] + EXAMPLE_OCTETS, 2, Range(3, 4), Range(4, 12), OctetString(EXAMPLE_OCTETS));
    var second := Asn1([12, 15] + EXAMPLE_TEXT, 12, Range(13, 14), Range(14, 29), Utf8String(EXAMPLE_TEXT));
    ExampleFirst();
    ExampleSecond();
    assert ParseFields(EXAMPLE, 2, 27, 29) == Ok(([], 29));
    FieldsCons(EXAMPLE, 2, 27, 12);
    assert [second] + [] == [second];
    assert ParseFields(EXAMPLE, 2, 27, 12) == Ok(([second], 29));
    FieldsCons(EXAMPLE, 2, 27, 2);
    assert [first] + [second] == [first, second];
    assert ParseFields(EXAMPLE, 2, 27, 2) == Ok(([first, second], 29));
    assert ParseHeader(EXAMPLE, 0, SEQUENCE_TAG) == Ok(Header(Range(1, 2), 27));
    ParseSequenceParts(EXAMPLE, 0);
    assert EXAMPLE[0..29] == EXAMPLE;
  }

  /** Different values have different encodings: `encode` loses nothing but provenance. */
  lemma EncodingInjective(a: Asn1Type, b: Asn1Type)
    requires Encodable(a) && Encodable(b) && Encoding(a) == Encoding(b)
    ensures Erase(a) == Erase(b)
  {
    var buf := Encoding(a);
    assert buf[0..|buf|] == buf;
    DecodeEncoding(a, buf, 0);
    DecodeEncoding(b, buf, 0);
  }
}
