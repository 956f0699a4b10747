/**
 * The data model shared by the ASN.1 codec: bytes, machine-sized lengths,
 * byte ranges, the codec's error kinds and the decoded node with its
 * provenance (the `Asn1` node and the closed `Asn1Type` union).
 */
module Asn1 {
  import opened Results

  /** One octet of the encoded stream. */
  type Byte = b: int | 0 <= b < 256

  /** One more than the largest value of a 64-bit `usize`. */
  const USIZE_LIMIT: nat := 0x1_0000_0000_0000_0000

  /** A length as the codec stores it (a 64-bit `usize`). */
  type Usize = n: nat | n < USIZE_LIMIT

  /** A half-open range of absolute buffer positions, `start..end`. */
  datatype Range = Range(start: nat, end: nat)

  /** The error kinds a decode or encode call can end with. */
  datatype Error =
    | BufferUnderrun
    | BufferOverflow
    | InvalidTag(expected: Byte, found: Byte)
    | InvalidLength
    | InvalidBoolLength(len: nat)
    | InvalidBoolValue(value: Byte)
    | UnsupportedTag(tag: Byte)

  type Asn1Result<T> = Result<T, Error>

  /** The single-byte tags of the concrete types. */
  const BOOL_TAG: Byte := 0x01
  const OCTET_STRING_TAG: Byte := 0x04
  const UTF8_STRING_TAG: Byte := 0x0C
  const SEQUENCE_TAG: Byte := 0x30

  /**
   * A decoded value with its provenance: `rawData` is the source slice the
   * node spans, `tag` the absolute position of its tag byte, `length` the
   * range of its length field and `data` the range of its content.
   */
  datatype Asn1 = Asn1(rawData: seq<Byte>, tag: nat, length: Range, data: Range, asn1Type: Asn1Type)

  /** The closed set of concrete value types. */
  datatype Asn1Type =
    | Bool(flag: bool)
    | OctetString(octets: seq<Byte>)
    | Utf8String(text: seq<Byte>)
    | Sequence(fields: seq<Asn1>)

  /** The tag each concrete type carries. */
  function TagOf(t: Asn1Type): (tag: Byte)
    ensures tag in {BOOL_TAG, OCTET_STRING_TAG, UTF8_STRING_TAG, SEQUENCE_TAG}
  {
    match t
    case Bool(_) => BOOL_TAG
    case OctetString(_) => OCTET_STRING_TAG
    case Utf8String(_) => UTF8_STRING_TAG
    case Sequence(_) => SEQUENCE_TAG
  }

  /** A node read from a buffer, together with the position the reader stopped at. */
  datatype Decoded = Decoded(node: Asn1, next: nat)

  /** The node of a successful parse, or its error. */
  function NodeOf(r: Asn1Result<Decoded>): Asn1Result<Asn1>
  {
    match r
    case Ok(d) => Ok(d.node)
    case Err(e) => Err(e)
  }

  /** A value without provenance: what remains when byte positions are forgotten. */
  datatype Value =
    | BoolValue(flag: bool)
    | OctetStringValue(octets: seq<Byte>)
    | Utf8StringValue(text: seq<Byte>)
    | SequenceValue(items: seq<Value>)

  /** Forgets every byte position in `t`, keeping the values and their order. */
  function Erase(t: Asn1Type): Value
    decreases t, 1
  {
    match t
    case Bool(f) => BoolValue(f)
    case OctetString(o) => OctetStringValue(o)
    case Utf8String(s) => Utf8StringValue(s)
    case Sequence(fs) => SequenceValue(Erased(fs))
  }

  /** The values of a list of nodes, in order. */
  function Erased(nodes: seq<Asn1>): seq<Value>
    decreases Asn1Type.Sequence(nodes), 0
  {
    seq(|nodes|, i requires 0 <= i < |nodes| => Erase(nodes[i].asn1Type))
  }

  lemma ErasedAppend(a: seq<Asn1>, b: seq<Asn1>)
    ensures Erased(a + b) == Erased(a) + Erased(b)
  {
    assert forall i :: 0 <= i < |a + b| ==> Erased(a + b)[i] == (Erased(a) + Erased(b))[i];
  }
}
