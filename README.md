# crypto-helper core in Dafny

This project models two parts of the crypto-helper repository.

1. **The ASN.1 DER codec of the `asn1-parser` crate.** It defines three
   concrete types with one encoder and one decoder shape:
   - BOOLEAN, tag `0x01`;
   - OCTET STRING, tag `0x04`;
   - SEQUENCE, tag `0x30`.

   UTF8String (tag `0x0C`) is the fourth member of the `Asn1Type` union that
   a SEQUENCE holds. Each type has:
   - `compare_tags`;
   - `decode`, which returns the value;
   - `decode_asn1`, which returns an `Asn1` node with its provenance: the
     tag offset, the length-field range, the data range and the raw bytes
     spanned;
   - `needed_buf_size`;
   - `encode`.
2. **The name tables of the web tool.**
   - In `algorithm.rs`: the algorithm names, the RSA hash names, the RSA
     action names, the bool conversions of the Kerberos, zlib and bcrypt
     modes, and the defaults.
   - In the JWT module: the `alg` header value, with its parsing, display
     and key-length hint.

## How it is built

- **Decoding.** It works on a `Cursor.Reader`, a class over an immutable
  `seq<Byte>` whose position only moves forward. Each decoder is a method
  proved equal to a pure specification function on `(buffer, position)`:
  `BoolCodec.ParseBool`, `OctetStringCodec.ParseOctetString`,
  `Utf8StringCodec.ParseUtf8String`, and `SequenceCodec.ParseSequence`,
  `ParseAny` and `ParseFields`. Each decoder's `ensures` says its result is
  that function's result and its new position is that function's end
  position. The SEQUENCE decoders keep the source's `while` loop. Its
  invariant says that the fields collected so far, followed by what
  `ParseFields` gives from the current position, are what `ParseFields`
  gives from the content start.
- **Encoding.** It works on a `Cursor.Writer`, a class over a fixed-size
  `array<Byte>`, and appends to it. Each encoder:
  - succeeds exactly when `needed_buf_size` bytes still fit;
  - on success, appends exactly the pure `Encoding` of its value;
  - on overflow, fails with `BufferOverflow` after writing a prefix of
    that encoding. Nothing is rolled back, as in the source.
- **Length field.** The crate's `read_len`, `write_len` and `len_size` are
  outside this model. They are modelled by the rules of ITU-T X.690,
  sections 8.1.3.4 and 8.1.3.5:
  - a length up to 127 is written in one byte;
  - a larger length is written as `0x80 + k`, followed by the minimal k
    big-endian bytes.

  The decoder accepts any long form with 1 to 127 length bytes whose value
  is below 2^64, leading zero bytes included. It rejects `0x80`.
- **Round trip.** It is stated modulo provenance. `Asn1.Erase` maps an
  `Asn1Type` to a `Value` that forgets the ranges and raw bytes of nested
  nodes. Decoding an encoding gives back the same erased value, with the
  provenance of where it was decoded.
- **Contracts kept in lemmas.** Five specification functions are used
  throughout the proofs, so their properties are stated in lemmas rather
  than in their own `ensures`. This keeps each proof's context small.
  - `Length.LenSize` (`len_size`) and `Length.LenBytes` (`write_len`):
    `LenBytesSize`, `LenBytesMinimal` and `ParseLenBytes`.
  - `SequenceCodec.NeededBufSize` and `SequenceCodec.Encoding`:
    `EncodingSize` and `FieldsEncodingSize`.
  - `Algorithms.Name`: `NameSupported`, `NameRoundTrip`, `NameOfDefault`
    and `NameInjective`.
- **Name tables.** These are pure functions with inverse lemmas. The key
  material and payloads are datatypes, and key material is reduced to its
  variant.

## Model

| member | source | states |
|---|---|---|
| BoolCodec.CompareTags | crates/asn1-parser/src/generic_types/boolean.rs:40-42 | a tag matches exactly when it is `0x01` |
| BoolCodec.FromFlag | crates/asn1-parser/src/generic_types/boolean.rs:15-19 | `From<bool>` gives the BOOLEAN holding exactly that flag |
| BoolCodec.TryFromByte | crates/asn1-parser/src/generic_types/boolean.rs:24-30 | a content byte is accepted exactly when it is `0x00` (false) or `0xFF` (true); the flag accepted re-encodes to that byte; any other byte is an invalid-value error |
| BoolCodec.NeededBufSize | crates/asn1-parser/src/generic_types/boolean.rs:79-81 | `needed_buf_size` is the length of the encoding of either flag |
| BoolCodec.Encoding | crates/asn1-parser/src/generic_types/boolean.rs:83-90 | the encoding is three bytes: the tag `0x01`, the length `0x01`, and a content byte that `TryFrom<u8>` reads back as the flag |
| BoolCodec.EncodingBytes | crates/asn1-parser/src/generic_types/boolean.rs:79-90 | the encoding is `[0x01,0x01,0xFF]` for true and `[0x01,0x01,0x00]` for false, its length is `needed_buf_size` (3), and its content byte decodes to the flag |
| BoolCodec.ParseBool | crates/asn1-parser/src/generic_types/boolean.rs:56-75 | a decoded BOOLEAN node's raw bytes are the input from its tag to its data end, and decoding ends at the data end |
| BoolCodec.ParseBoolRules | crates/asn1-parser/src/generic_types/boolean.rs:58-73 | a leading byte other than `0x01` is an invalid-tag error; a declared length other than 1 is an invalid-length error; on success the data range is one byte holding `0x00` or `0xFF`, the flag is true exactly for `0xFF`, and the raw bytes are the input from the tag position to the data end: three bytes when the length field is one byte, more when it is a long form |
| BoolCodec.LongFormLength | crates/asn1-parser/src/generic_types/boolean.rs:58-73 | `[0x01,0x81,0x01,0xFF]`, with a long-form length field, decodes to true with length 1..3, data 3..4 and all four bytes as raw data |
| BoolCodec.DecodeEncoding | crates/asn1-parser/src/generic_types/boolean.rs:83-90 | decoding the encoding of a flag, wherever it sits in a buffer, gives that flag with tag, length and data ranges at the offsets the encoding puts them |
| BoolCodec.EncodeDecoded | crates/asn1-parser/src/generic_types/boolean.rs:56-90 | a decoded BOOLEAN whose length field is one byte re-encodes to exactly its raw bytes |
| BoolCodec.Decode | crates/asn1-parser/src/generic_types/boolean.rs:44-54 | the value-only decoder gives the flag the specification decoder gives, fails where it fails, and consumes the same bytes |
| BoolCodec.DecodeAsn1 | crates/asn1-parser/src/generic_types/boolean.rs:56-75 | the node decoder returns exactly the specification's node, advances to its end, and reports a wrong tag as an invalid-tag error |
| BoolCodec.Encode | crates/asn1-parser/src/generic_types/boolean.rs:83-90 | succeeds exactly when 3 bytes fit, then appends the encoding; otherwise fails with an overflow after a prefix of it |
| OctetStringCodec.CompareTags | crates/asn1-parser/src/string/octet_string.rs:29-31 | a tag matches exactly when it is `0x04` |
| OctetStringCodec.FromBytes | crates/asn1-parser/src/string/octet_string.rs:20-26 | `From<Vec<u8>>` gives the OCTET STRING holding exactly the given bytes |
| OctetStringCodec.NeededBufSize | crates/asn1-parser/src/string/octet_string.rs:72-76 | `needed_buf_size` of any octets whose length fits a `usize` is the length of their encoding |
| OctetStringCodec.Encoding | crates/asn1-parser/src/string/octet_string.rs:78-82 | the encoding starts with the tag `0x04` and is longer than the octets; `EncodingLayout` gives the exact bytes |
| OctetStringCodec.EncodingLayout | crates/asn1-parser/src/string/octet_string.rs:72-82 | the encoding is the tag, then the length of the octets, then the octets, and its size is `1 + len_size(n) + n` |
| OctetStringCodec.ParseOctetString | crates/asn1-parser/src/string/octet_string.rs:45-62 | a decoded node's raw bytes are the input from its tag to its data end, and decoding ends at the data end |
| OctetStringCodec.ParseOctetStringRules | crates/asn1-parser/src/string/octet_string.rs:46-61 | a leading byte other than `0x04` is an invalid-tag error; on success the octets are exactly the `len` bytes after the length field, the data range has width `len`, and the raw bytes begin with the tag |
| OctetStringCodec.DecodeEncoding | crates/asn1-parser/src/string/octet_string.rs:78-82 | decoding the encoding of some octets, wherever it sits, gives those octets with the ranges the encoding puts them at |
| OctetStringCodec.EncodeDecoded | crates/asn1-parser/src/string/octet_string.rs:45-82 | a decoded OCTET STRING whose length field is minimal re-encodes to exactly its raw bytes |
| OctetStringCodec.Example | crates/asn1-parser/src/string/octet_string.rs:90-108 | the test's ten bytes decode at tag 0, length `[8]` at 1..2, data 2..10 holding the eight octets; `needed_buf_size` is 10 and re-encoding gives the same ten bytes |
| OctetStringCodec.Decode | crates/asn1-parser/src/string/octet_string.rs:33-43 | the value-only decoder gives the octets the specification decoder gives and consumes the same bytes |
| OctetStringCodec.DecodeAsn1 | crates/asn1-parser/src/string/octet_string.rs:45-62 | the node decoder returns exactly the specification's node and advances to its end |
| OctetStringCodec.Encode | crates/asn1-parser/src/string/octet_string.rs:78-82 | succeeds exactly when `needed_buf_size` bytes fit, then appends tag, length and octets; otherwise fails with an overflow after a prefix of them |
| Utf8StringCodec.CompareTags | crates/asn1-parser/src/constructors/sequence.rs:117-122 | a tag matches exactly when it is 12 |
| Utf8StringCodec.NeededBufSize | crates/asn1-parser/src/constructors/sequence.rs:26 | `needed_buf_size` of any text whose length fits a `usize` is the length of its encoding |
| Utf8StringCodec.Encoding | crates/asn1-parser/src/constructors/sequence.rs:38 | the encoding starts with the tag 12 and is longer than the text; `DecodeEncoding` shows that the text follows the length field |
| Utf8StringCodec.ParseUtf8String | crates/asn1-parser/src/constructors/sequence.rs:117-122 | a decoded UTF8String node's raw bytes are the input from its tag to its data end |
| Utf8StringCodec.DecodeEncoding | crates/asn1-parser/src/constructors/sequence.rs:117-122 | decoding the encoding of some text gives that text with the ranges the encoding puts it at, and the encoding's size is `needed_buf_size` |
| Utf8StringCodec.EncodeDecoded | crates/asn1-parser/src/constructors/sequence.rs:117-122 | a decoded UTF8String whose length field is minimal re-encodes to exactly its raw bytes |
| Utf8StringCodec.DecodeAsn1 | crates/asn1-parser/src/constructors/sequence.rs:73 | the node decoder returns exactly the specification's node and advances to its end |
| Utf8StringCodec.Encode | crates/asn1-parser/src/constructors/sequence.rs:38 | succeeds exactly when `needed_buf_size` bytes fit, then appends tag, length and text |
| SequenceCodec.CompareTags | crates/asn1-parser/src/constructors/sequence.rs:43-45 | a tag matches exactly when it is `0x30` |
| SequenceCodec.EncodingSize | crates/asn1-parser/src/constructors/sequence.rs:26-30 | every encoding is `needed_buf_size` bytes long and starts with its type's tag; a SEQUENCE's size is `1 + len_size(S) + S`, where S is the sum of its children's sizes |
| SequenceCodec.FieldsEncodingSize | crates/asn1-parser/src/constructors/sequence.rs:27 | the children's encodings, concatenated in order, are as long as the sum of their `needed_buf_size` |
| SequenceCodec.ParseAny | crates/asn1-parser/src/constructors/sequence.rs:73 | decoding any child consumes at least one byte and stays inside the input |
| SequenceCodec.ParseSequence | crates/asn1-parser/src/constructors/sequence.rs:62-83 | a decoded SEQUENCE consumes at least one byte and stays inside the input |
| SequenceCodec.ParseFields | crates/asn1-parser/src/constructors/sequence.rs:71-74 | the child loop ends at or past `start + len`, inside the input |
| SequenceCodec.ParseAnyFaithful | crates/asn1-parser/src/constructors/sequence.rs:76-82 | every decoded node, nested ones included, has raw bytes equal to the input over its span, tag at its offset, and length and data ranges inside that span |
| SequenceCodec.ParseSequenceFaithful | crates/asn1-parser/src/constructors/sequence.rs:76-82 | a decoded SEQUENCE and all its descendants carry faithful provenance |
| SequenceCodec.ParseFieldsFaithful | crates/asn1-parser/src/constructors/sequence.rs:71-74 | every child the loop collects carries faithful provenance |
| SequenceCodec.ParseAnyDispatch | crates/asn1-parser/src/constructors/sequence.rs:73 | a child is decoded by the decoder chosen by its leading byte; an unknown leading byte is an unsupported-tag error |
| SequenceCodec.DecodeEncoding | crates/asn1-parser/src/constructors/sequence.rs:32-59 | decoding the encoding of any value, wherever it sits in a buffer, gives the same value up to provenance and ends right after the encoding |
| SequenceCodec.DecodeSequenceEncoding | crates/asn1-parser/src/constructors/sequence.rs:32-83 | decoding the encoding of a SEQUENCE gives back its ordered field list up to provenance, with tag, length and data ranges where the encoding puts them |
| SequenceCodec.DecodeFieldsEncoding | crates/asn1-parser/src/constructors/sequence.rs:71-74 | the child loop over the concatenated encodings of some fields decodes exactly those fields in order and stops at the content end |
| SequenceCodec.DecodeFieldEncoding | crates/asn1-parser/src/constructors/sequence.rs:73 | decoding one child of a concatenation consumes exactly that child's encoding and gives its value |
| SequenceCodec.ParseSequenceParts | crates/asn1-parser/src/constructors/sequence.rs:62-83 | a SEQUENCE whose header parses and whose child loop succeeds decodes to the node built from that header and loop |
| SequenceCodec.ParseSequenceRules | crates/asn1-parser/src/constructors/sequence.rs:62-83 | a leading byte other than `0x30` is an invalid-tag error; on success tag is the start position, length is the length-field range, data is `len_range.end .. len_range.end + len`, raw bytes are the input over that span, and decoding ends where the child loop ends |
| SequenceCodec.EmptySequence | crates/asn1-parser/src/constructors/sequence.rs:71-74 | a SEQUENCE of declared length 0 decodes to the empty field list |
| SequenceCodec.Overshoot | crates/asn1-parser/src/constructors/sequence.rs:72-77 | the code accepts a last child that runs past the declared length: `30 01 01 01 FF` decodes to a SEQUENCE with data range 2..3 holding one BOOLEAN spanning 2..5 |
| SequenceCodec.HugeLength | crates/asn1-parser/src/constructors/sequence.rs:65-67 | for `30 88 FF FF FF FF FF FF FF FF` the header parses with length 2^64 - 1, the content end `len_range.end + len` is at least 2^64, and the model's decoder reports an underrun |
| SequenceCodec.ExampleFirst | crates/asn1-parser/src/constructors/sequence.rs:110-116 | the test's first child is the OCTET STRING at 2 with length 3..4 and data 4..12 |
| SequenceCodec.ExampleSecond | crates/asn1-parser/src/constructors/sequence.rs:117-123 | the test's second child is the UTF8String at 12 with length 13..14 and data 14..29 |
| SequenceCodec.Example | crates/asn1-parser/src/constructors/sequence.rs:92-128 | the test's 29 bytes decode to the node with tag 0, length 1..2, data 2..29 and those two children |
| SequenceCodec.EncodingInjective | crates/asn1-parser/src/constructors/sequence.rs:32-39 | two values with the same encoding are the same value up to provenance |
| SequenceCodec.DecodeAny | crates/asn1-parser/src/constructors/sequence.rs:73 | the child decoder returns exactly the specification's node for the child at the current position and advances to its end |
| SequenceCodec.DecodeAsn1 | crates/asn1-parser/src/constructors/sequence.rs:62-83 | the node decoder with its child loop returns exactly the specification's node, advances to its end, and reports a wrong tag as an invalid-tag error |
| SequenceCodec.Decode | crates/asn1-parser/src/constructors/sequence.rs:47-60 | the value-only decoder succeeds exactly when the node decoder does, gives the same field list, consumes the same bytes and fails with the same error |
| SequenceCodec.EncodeAny | crates/asn1-parser/src/constructors/sequence.rs:38 | encoding any child succeeds exactly when its `needed_buf_size` fits, then appends its encoding |
| SequenceCodec.Encode | crates/asn1-parser/src/constructors/sequence.rs:32-39 | succeeds exactly when `needed_buf_size` bytes fit, then appends `0x30`, the length S and the children's encodings in order; otherwise fails with an overflow after a prefix of that |
| SequenceCodec.EncodeFields | crates/asn1-parser/src/constructors/sequence.rs:38 | the children are encoded one after another in list order; the first failure stops the loop |
| Framing.ParseHeader | crates/asn1-parser/src/constructors/sequence.rs:63-66 | a header parses only after the expected tag byte, and its length field starts right after the tag |
| Framing.ParsePrimitive | crates/asn1-parser/src/string/octet_string.rs:46-51 | a primitive header parses only when the tag matches and the content it announces lies inside the input |
| Framing.PrimitiveEncodingSize | crates/asn1-parser/src/string/octet_string.rs:72-76 | a primitive encoding is `1 + len_size(n) + n` bytes long |
| Framing.ParsePrimitiveEncoding | crates/asn1-parser/src/string/octet_string.rs:45-62 | a primitive encoding's header parses back to its tag and length, and its content follows the length field |
| Framing.EncodePrimitiveDecoded | crates/asn1-parser/src/string/octet_string.rs:45-82 | a primitive with a minimal length field is its tag, its length bytes and its content |
| Framing.WriteHeader | crates/asn1-parser/src/generic_types/boolean.rs:84-85 | writing the tag and length succeeds exactly when they fit and appends them |
| Framing.EncodePrimitive | crates/asn1-parser/src/string/octet_string.rs:78-82 | tag, length and content are appended exactly when they fit |
| Length.LenBytesSize | crates/asn1-parser/src/string/octet_string.rs:75 | `len_size(n)` is the length of the length field written for n, and it is 1 exactly when n is at most 127 |
| Length.LenBytesMinimal | crates/asn1-parser/src/string/octet_string.rs:80 | a long-form length field is `0x80 + k` followed by k bytes with no leading zero byte |
| Length.ParseLenBytes | crates/asn1-parser/src/generic_types/boolean.rs:47 | the length field written for n reads back as n over a range of `len_size(n)` bytes |
| Length.ParseLenMinimal | crates/asn1-parser/src/generic_types/boolean.rs:60 | a length field that reads back as n is at least `len_size(n)` bytes wide, and exactly that wide when and only when it is the field written for n |
| Length.ParseLen | crates/asn1-parser/src/generic_types/boolean.rs:60 | a decoded length field starts at the position read from and ends inside the input |
| Length.ReadLen | crates/asn1-parser/src/string/octet_string.rs:49 | reading a length gives the specification's length and range and moves to the range's end |
| Length.WriteLen | crates/asn1-parser/src/generic_types/boolean.rs:85 | writing a length succeeds exactly when its `len_size` bytes fit, and appends them |
| Length.MagnitudeFacts | crates/asn1-parser/src/string/octet_string.rs:80 | the big-endian bytes of n have no leading zero, number `ByteCount(n)` and read back as n |
| Length.FromBigEndianInjective | crates/asn1-parser/src/string/octet_string.rs:49 | big-endian byte strings of the same width with the same value are equal |
| Cursor.Reader.ReadByte | crates/asn1-parser/src/generic_types/boolean.rs:53 | reads the next byte and advances by one, or reports an underrun without moving |
| Cursor.Reader.PeekByte | crates/asn1-parser/src/constructors/sequence.rs:73 | gives the next byte without consuming it, or reports an underrun |
| Cursor.Reader.ReadSlice | crates/asn1-parser/src/string/octet_string.rs:51 | reads the next n bytes and advances by n, or reports an underrun without moving |
| Cursor.CheckTag | crates/asn1-parser/src/generic_types/boolean.rs:45 | consumes the tag byte and fails with an invalid-tag error naming the expected and found tags when they differ |
| Cursor.ReadData | crates/asn1-parser/src/generic_types/boolean.rs:66 | returns the next `len` bytes and the range they occupy, or an underrun without moving |
| Cursor.Writer.WriteByte | crates/asn1-parser/src/generic_types/boolean.rs:84 | appends one byte when there is room, otherwise fails with an overflow and writes nothing |
| Cursor.Writer.WriteSlice | crates/asn1-parser/src/string/octet_string.rs:81 | appends a slice when it fits, otherwise fails with an overflow and writes nothing |
| Asn1.TagOf | crates/asn1-parser/src/generic_types/boolean.rs:33-37 | the tag of every `Asn1Type` variant is one of the four known tags |
| Algorithms.DefaultAlgorithm | src/crypto_helper/algorithm.rs:451-455 | the default algorithm is zlib compression of empty input, named "ZLIB" |
| Algorithms.Defaults | src/crypto_helper/algorithm.rs:286-293 | the bcrypt hash action defaults to 8 rounds with an empty salt; the RSA action defaults to signing with SHA-1; the Kerberos and zlib modes default to `false` |
| Algorithms.DefaultOf | src/crypto_helper/algorithm.rs:387-421 | the payload `try_from` gives a variant: parsing an algorithm's name gives exactly its `DefaultOf` |
| Algorithms.AlgorithmFromName | src/crypto_helper/algorithm.rs:387-421 | an unknown name is refused with the message naming it and listing the supported names |
| Algorithms.AcceptsExactlySupported | src/crypto_helper/algorithm.rs:387-421 | `try_from` succeeds exactly on the twelve names of `SUPPORTED_ALGORITHMS`, and `name(parse(s)) == s` |
| Algorithms.ParseRoundTrip | src/crypto_helper/algorithm.rs:387-441 | a name that parses is the name of what it parses to, which holds its default input |
| Algorithms.NameRoundTrip | src/crypto_helper/algorithm.rs:387-441 | parsing an algorithm's name gives back its variant, with the default input |
| Algorithms.SupportedNamesAreNames | src/crypto_helper/algorithm.rs:22-35 | the supported names are the twelve variants' names, in order |
| Algorithms.NameSupported | src/crypto_helper/algorithm.rs:424-441 | every algorithm's name is a supported name |
| Algorithms.NameOfDefault | src/crypto_helper/algorithm.rs:424-441 | the name depends only on the variant |
| Algorithms.NameInjective | src/crypto_helper/algorithm.rs:424-441 | two algorithms have the same name exactly when they are the same variant |
| Algorithms.AlgorithmEqualsName | src/crypto_helper/algorithm.rs:443-449 | an algorithm equals a string exactly when that string parses to the algorithm's variant |
| Algorithms.RsaHashFromName | src/crypto_helper/algorithm.rs:113-140 | a parsed RSA hash is never the "other" hash; an unknown name is refused with the message naming it and listing `RSA_HASH_ALGOS` |
| Algorithms.RsaHashName | src/crypto_helper/algorithm.rs:142-156 | the name is "Other" exactly for a hash outside the eight RSA hashes |
| Algorithms.RsaHashRoundTrip | src/crypto_helper/algorithm.rs:113-156 | parsing an RSA hash's name gives back the hash; the name "Other" does not parse |
| Algorithms.RsaHashNamesAreNames | src/crypto_helper/algorithm.rs:56-65 | `RSA_HASH_ALGOS` lists the eight hashes' names in order |
| Algorithms.RsaHashAcceptsExactly | src/crypto_helper/algorithm.rs:113-156 | parsing succeeds exactly on the eight names of `RSA_HASH_ALGOS`, and naming what is parsed gives the string back; a hash's name is in the list exactly when it is one of the eight |
| Algorithms.RsaHashEqualsName | src/crypto_helper/algorithm.rs:158-164 | an RSA hash equals a string exactly when the string parses to that hash, or, for the other hash, when the string is "Other" |
| Algorithms.EnumerateActions | src/crypto_helper/algorithm.rs:219-223 | the four action literals each parse, and name back to themselves |
| Algorithms.RsaActionFromName | src/crypto_helper/algorithm.rs:225-245 | an action literal is accepted exactly when it is one of `Sign`, `Verify`, `Encrypt`, `Decrypt`, and `as_ref` of the result is that literal |
| Algorithms.ActionName | src/crypto_helper/algorithm.rs:247-256 | every action's name is one of the four literals |
| Algorithms.ActionNameRoundTrip | src/crypto_helper/algorithm.rs:225-256 | parsing an action's name gives back an action of the same kind |
| Algorithms.ActionEqualsName | src/crypto_helper/algorithm.rs:258-262 | an action equals a string exactly when the string parses to an action with the same name |
| Algorithms.KrbModeToBool | src/crypto_helper/algorithm.rs:86-93 | converting a Kerberos mode to a bool and back gives the same mode |
| Algorithms.KrbModeFromBool | src/crypto_helper/algorithm.rs:95-102 | `true` becomes decryption and `false` encryption |
| Algorithms.KrbModeRoundTrip | src/crypto_helper/algorithm.rs:86-102 | the Kerberos mode and bool conversions are inverse to each other |
| Algorithms.ZlibModeToBool | src/crypto_helper/algorithm.rs:340-347 | converting a zlib mode to a bool and back gives the same mode |
| Algorithms.ZlibModeFromBool | src/crypto_helper/algorithm.rs:349-356 | `true` becomes decompression and `false` compression |
| Algorithms.ZlibModeRoundTrip | src/crypto_helper/algorithm.rs:340-356 | the zlib mode and bool conversions are inverse to each other |
| Algorithms.BcryptActionToBool | src/crypto_helper/algorithm.rs:308-315 | a bcrypt action is `true` exactly when it is a verification, whatever its input |
| Algorithms.BcryptActionFromBool | src/crypto_helper/algorithm.rs:317-324 | the action built from a bool converts back to that bool and holds its variant's default input |
| Algorithms.BcryptActionRoundTrip | src/crypto_helper/algorithm.rs:308-324 | `bool(BcryptAction::from(b)) == b`; an action survives the other round trip exactly when it holds its default input |
| JwtSignature.KeyLenHint | src/jwt/signature.rs:17-23 | the hint is 32 exactly for HS256, 64 exactly for HS512, and none exactly for an unsupported algorithm |
| JwtSignature.FromJson | src/jwt/signature.rs:26-47 | a JSON value is accepted exactly when it is a string; null, bool, number, array and object each give their own error message |
| JwtSignature.FromJsonString | src/jwt/signature.rs:34-42 | "HS256" parses to HS256 and "HS512" to HS512, each with an empty key; any other string s parses to `Unsupported(s)` |
| JwtSignature.DefaultAlgorithm | src/jwt/signature.rs:49-53 | the default is `Unsupported("")`, which displays as the empty string and has no hint |
| JwtSignature.Display | src/jwt/signature.rs:55-62 | HS256 displays as "HS256" and HS512 as "HS512"; an unsupported algorithm displays its name; the others display a supported name |
| JwtSignature.DisplayParsed | src/jwt/signature.rs:34-62 | displaying what a string parses to gives back the string |
| JwtSignature.HintIffSupported | src/jwt/signature.rs:17-42 | the parsed algorithm has a key-length hint exactly when the string is in `JWT_SIGNATURE_ALGORITHMS` |

## Left out

- The crate's `reader`, `writer` and `length` modules and the `Asn1Type` dispatch are not part of this model. They are modelled by their contracts.
  - Reader and Writer errors are the abstract `BufferUnderrun` and `BufferOverflow`.
  - The textual `Error::from(...)` messages of the BOOLEAN decoder become the variants `InvalidBoolLength` and `InvalidBoolValue`.
  - The dispatch is assumed to peek the tag byte and call the decoder whose `compare_tags` accepts it.
- UTF8String: the content bytes are not checked to be valid UTF-8, and the text is kept as bytes.
- `utf8_string.rs` is not part of this model. The UTF8String codec is modelled on the OCTET STRING one with tag 12, as the SEQUENCE test at `crates/asn1-parser/src/constructors/sequence.rs:117-122` shows it behaves.
- BIT STRING, explicit and application tags, multi-byte tags and the other ASN.1 types are not modelled. Only single-byte tags occur.
- SequenceCodec.Encodable: sums of `needed_buf_size` are unbounded integers. The model requires the content length of every SEQUENCE to fit in a 64-bit `usize` and does not model `usize` overflow in the sum.
- SequenceCodec.ParseSequence: `len_range.end + len` is computed in `usize` at `crates/asn1-parser/src/constructors/sequence.rs:67`. A declared length near 2^64, as in `30 88 FF FF FF FF FF FF FF FF`, overflows there: a debug build panics and a release build wraps around. The model adds unbounded integers, so such an input is a `BufferUnderrun` error instead (see `SequenceCodec.HugeLength`).
- SequenceCodec.DecodeAsn1: follows the code, not X.690 section 8.9. The loop accepts a last child that runs past the declared length. Decoding then continues after that child, while the node's `data` range and raw bytes still stop at the declared length (see `SequenceCodec.Overshoot`).
- SequenceCodec.DecodeSequenceEncoding: the encode/decode round trip is stated up to provenance (the `Erase` value). A node built by hand may carry any ranges and raw bytes, and decoding cannot reproduce those.
- Re-encoding a decoded SEQUENCE is not proved to reproduce its input bytes; that would need the children's length fields to be minimal and no overshoot.
- `Asn1Entity::tag`, `encode_buff` and `decode_asn1_buff` are thin wrappers; only the tags (`Asn1.TagOf`) are modelled.
- `HASHING_ALGOS`, `ENCRYPTION_ALGOS`, `HMAC_ALGOS` and `COMPRESSION_ALGOS` are used only by the user interface and are not modelled.
- Key material: the PEM and PKCS#1 key parsing and the bundled key files of `algorithm.rs` are not modelled. A key is its variant (bundled public, bundled private, or a supplied PEM text).
- The `picky` hash algorithm is a closed enum of the eight RSA hashes plus one `OtherHash` standing for the rest.
- Serde attributes and (de)serialisation are not modelled.
- JwtSignature.FromJson: JSON parsing is not modelled. `serde_json::Value` is a six-variant datatype, and a number keeps its literal text.
- The web application, the `yew` rendering of ASN.1 trees and the proptest strategies are not modelled. They have no logic to state.
