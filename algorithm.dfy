/**
 * The algorithm tables of the crypto helper: the names by which the user
 * interface selects an algorithm, an RSA hash or an RSA action, the
 * translations between those names and the variants, and the bool switches
 * behind the mode toggles. Keys and hash internals are kept opaque; each
 * variant is only told apart by its name.
 */
module Algorithms {
  import opened Results
  import opened Asn1

  /** Rust's `u32` and `i32`. */
  type U32 = x: int | 0 <= x < 0x1_0000_0000
  type I32 = x: int | -0x8000_0000 <= x < 0x8000_0000

  // ---------------------------------------------------------------------
  // Name tables
  // ---------------------------------------------------------------------

  const MD5: string := "MD5"
  const SHA1: string := "SHA1"
  const SHA256: string := "SHA256"
  const SHA512: string := "SHA512"
  const AES128_CTS_HMAC_SHA1_96: string := "AES128-CTS-HMAC-SHA1-96"
  const AES256_CTS_HMAC_SHA1_96: string := "AES256-CTS-HMAC-SHA1-96"
  const HMAC_SHA1_96_AES128: string := "HMAC-SHA1-96-AES128"
  const HMAC_SHA1_96_AES256: string := "HMAC-SHA1-96-AES256"
  const RSA: string := "RSA"
  const SHA384: string := "SHA384"
  const BCRYPT: string := "BCRYPT"
  const ZLIB: string := "ZLIB"

  /** Every algorithm name the application accepts, in the order it lists them. */
  const SUPPORTED_ALGORITHMS: seq<string> :=
    [MD5, SHA1, SHA256, SHA512, AES128_CTS_HMAC_SHA1_96, AES256_CTS_HMAC_SHA1_96,
     HMAC_SHA1_96_AES128, HMAC_SHA1_96_AES256, RSA, SHA384, BCRYPT, ZLIB]

  const RSA_ACTIONS: seq<string> := ["Sign", "Verify", "Encrypt", "Decrypt"]

  const RSA_HASH_MD5: string := "MD5"
  const RSA_HASH_SHA1: string := "SHA1"
  const RSA_HASH_SHA2_224: string := "SHA2_224"
  const RSA_HASH_SHA2_256: string := "SHA2_256"
  const RSA_HASH_SHA2_384: string := "SHA2_384"
  const RSA_HASH_SHA2_512: string := "SHA2_512"
  const RSA_HASH_SHA3_384: string := "SHA3_384"
  const RSA_HASH_SHA3_512: string := "SHA3_512"

  const RSA_HASH_ALGOS: seq<string> :=
    [RSA_HASH_MD5, RSA_HASH_SHA1, RSA_HASH_SHA2_224, RSA_HASH_SHA2_256,
     RSA_HASH_SHA2_384, RSA_HASH_SHA2_512, RSA_HASH_SHA3_384, RSA_HASH_SHA3_512]

  /** Rust's `{:?}` of a list of names: `["A", "B"]`. */
  function DebugList(names: seq<string>): string
  {
    "[" + DebugItems(names) + "]"
  }

  function DebugItems(names: seq<string>): string
  {
    if names == [] then ""
    else if |names| == 1 then "\"" + names[0] + "\""
    else "\"" + names[0] + "\", " + DebugItems(names[1..])
  }

  // ---------------------------------------------------------------------
  // Inputs and modes
  // ---------------------------------------------------------------------

  /** A key, kept opaque: one of the two keys bundled with the application, or one the user supplied. */
  datatype Key = BundledPublicKey | BundledPrivateKey | SuppliedKey(pem: string)

  datatype KrbMode = Encrypt | Decrypt

  datatype KrbInputData = KrbInputData(key: seq<Byte>, keyUsage: I32, payload: seq<Byte>)

  datatype KrbInput = KrbInput(mode: KrbMode, data: KrbInputData)

  /** The hash algorithms of the signing library; those without an RSA name are `OtherHash`. */
  datatype HashAlgorithm = MD5Hash | SHA1Hash | SHA2_224 | SHA2_256 | SHA2_384 | SHA2_512 | SHA3_384 | SHA3_512 | OtherHash

  datatype RsaHashAlgorithm = RsaHashAlgorithm(hash: HashAlgorithm)

  datatype RsaSignInput = RsaSignInput(hashAlgorithm: RsaHashAlgorithm, rsaPrivateKey: Key)

  datatype RsaVerifyInput = RsaVerifyInput(hashAlgorithm: RsaHashAlgorithm, rsaPublicKey: Key, signature: seq<Byte>)

  datatype RsaAction =
    | EncryptWith(publicKey: Key)
    | DecryptWith(privateKey: Key)
    | Sign(signInput: RsaSignInput)
    | Verify(verifyInput: RsaVerifyInput)

  datatype RsaInput = RsaInput(action: RsaAction, payload: seq<Byte>)

  datatype BcryptHashAction = BcryptHashAction(rounds: U32, salt: seq<Byte>)

  datatype BcryptAction = Hash(hashAction: BcryptHashAction) | VerifyHash(hashed: string)

  datatype BcryptInput = BcryptInput(action: BcryptAction, data: seq<Byte>)

  datatype ZlibMode = Compress | Decompress

  datatype ZlibInput = ZlibInput(mode: ZlibMode, data: seq<Byte>)

  datatype Algorithm =
    | Md5(md5Input: seq<Byte>)
    | Sha1(sha1Input: seq<Byte>)
    | Sha256(sha256Input: seq<Byte>)
    | Sha384(sha384Input: seq<Byte>)
    | Sha512(sha512Input: seq<Byte>)
    | Aes128CtsHmacSha196(aes128Input: KrbInput)
    | Aes256CtsHmacSha196(aes256Input: KrbInput)
    | HmacSha196Aes128(hmac128Input: KrbInputData)
    | HmacSha196Aes256(hmac256Input: KrbInputData)
    | Rsa(rsaInput: RsaInput)
    | Bcrypt(bcryptInput: BcryptInput)
    | Zlib(zlibInput: ZlibInput)

  // ---------------------------------------------------------------------
  // Defaults
  // ---------------------------------------------------------------------

  /** `KrbMode::default`: encryption. */
  const DEFAULT_KRB_MODE: KrbMode := Encrypt
  const DEFAULT_KRB_INPUT_DATA: KrbInputData := KrbInputData([], 0, [])
  const DEFAULT_KRB_INPUT: KrbInput := KrbInput(DEFAULT_KRB_MODE, DEFAULT_KRB_INPUT_DATA)

  /** `RsaSignInput::default`: SHA-1 with the bundled private key. */
  const DEFAULT_RSA_SIGN_INPUT: RsaSignInput := RsaSignInput(RsaHashAlgorithm(SHA1Hash), BundledPrivateKey)

  /** `RsaVerifyInput::default`: SHA-1 with the bundled public key and an empty signature. */
  const DEFAULT_RSA_VERIFY_INPUT: RsaVerifyInput := RsaVerifyInput(RsaHashAlgorithm(SHA1Hash), BundledPublicKey, [])

  /** `RsaAction::default`: signing with the default sign input. */
  const DEFAULT_RSA_ACTION: RsaAction := Sign(DEFAULT_RSA_SIGN_INPUT)
  const DEFAULT_RSA_INPUT: RsaInput := RsaInput(DEFAULT_RSA_ACTION, [])

  /** `BcryptHashAction::default`: 8 rounds and no salt. */
  const DEFAULT_BCRYPT_HASH_ACTION: BcryptHashAction := BcryptHashAction(8, [])

  /** `BcryptInput::default`: hashing with the default hash action, no data. */
  const DEFAULT_BCRYPT_INPUT: BcryptInput := BcryptInput(Hash(DEFAULT_BCRYPT_HASH_ACTION), [])

  /** `ZlibMode::default`: compression. */
  const DEFAULT_ZLIB_MODE: ZlibMode := Compress
  const DEFAULT_ZLIB_INPUT: ZlibInput := ZlibInput(DEFAULT_ZLIB_MODE, [])

  /** `Algorithm::default`: Zlib with its default input. */
  function DefaultAlgorithm(): (a: Algorithm)
    ensures a == Zlib(ZlibInput(Compress, []))
    ensures DefaultOf(a) == a && Name(a) == ZLIB
  {
    Zlib(DEFAULT_ZLIB_INPUT)
  }

  /** The defaults are fixed values. */
  lemma Defaults()
    ensures DEFAULT_BCRYPT_HASH_ACTION.rounds == 8 && DEFAULT_BCRYPT_HASH_ACTION.salt == []
    ensures DEFAULT_BCRYPT_INPUT.action == Hash(BcryptHashAction(8, [])) && DEFAULT_BCRYPT_INPUT.data == []
    ensures DEFAULT_RSA_ACTION.Sign? && DEFAULT_RSA_ACTION.signInput.hashAlgorithm.hash == SHA1Hash
    ensures ActionName(DEFAULT_RSA_ACTION) == "Sign"
    ensures KrbModeToBool(DEFAULT_KRB_MODE) == false && ZlibModeToBool(DEFAULT_ZLIB_MODE) == false
  {
  }

  /**
   * The variant of `a` with the payload `try_from` gives it: every parsed
   * algorithm carries its variant's default input.
   */
  function DefaultOf(a: Algorithm): (r: Algorithm)
    ensures AlgorithmFromName(Name(a)) == Ok(r)
  {
    match a
    case Md5(_) => Md5([])
    case Sha1(_) => Sha1([])
    case Sha256(_) => Sha256([])
    case Sha384(_) => Sha384([])
    case Sha512(_) => Sha512([])
    case Aes128CtsHmacSha196(_) => Aes128CtsHmacSha196(DEFAULT_KRB_INPUT)
    case Aes256CtsHmacSha196(_) => Aes256CtsHmacSha196(DEFAULT_KRB_INPUT)
    case HmacSha196Aes128(_) => HmacSha196Aes128(DEFAULT_KRB_INPUT_DATA)
    case HmacSha196Aes256(_) => HmacSha196Aes256(DEFAULT_KRB_INPUT_DATA)
    case Rsa(_) => Rsa(DEFAULT_RSA_INPUT)
    case Bcrypt(_) => Bcrypt(DEFAULT_BCRYPT_INPUT)
    case Zlib(_) => Zlib(DEFAULT_ZLIB_INPUT)
  }

  // ---------------------------------------------------------------------
  // Algorithm names
  // ---------------------------------------------------------------------

  /**
   * `Algorithm::try_from(&str)`: the variant with that name, holding its
   * default input; any other name is refused with a message listing the
   * supported ones.
   */
  function AlgorithmFromName(value: string): (r: Result<Algorithm, string>)
    ensures r.Err? ==> r.error == "Invalid algorithm name: " + value + ". Supported: " + DebugList(SUPPORTED_ALGORITHMS) + "."
  {
    if value == MD5 then Ok(Md5([]))
    else if value == SHA1 then Ok(Sha1([]))
    else if value == SHA256 then Ok(Sha256([]))
    else if value == SHA384 then Ok(Sha384([]))
    else if value == SHA512 then Ok(Sha512([]))
    else if value == AES128_CTS_HMAC_SHA1_96 then Ok(Aes128CtsHmacSha196(DEFAULT_KRB_INPUT))
    else if value == AES256_CTS_HMAC_SHA1_96 then Ok(Aes256CtsHmacSha196(DEFAULT_KRB_INPUT))
    else if value == HMAC_SHA1_96_AES128 then Ok(HmacSha196Aes128(DEFAULT_KRB_INPUT_DATA))
    else if value == HMAC_SHA1_96_AES256 then Ok(HmacSha196Aes256(DEFAULT_KRB_INPUT_DATA))
    else if value == RSA then Ok(Rsa(DEFAULT_RSA_INPUT))
    else if value == BCRYPT then Ok(Bcrypt(DEFAULT_BCRYPT_INPUT))
    else if value == ZLIB then Ok(Zlib(DEFAULT_ZLIB_INPUT))
    else Err("Invalid algorithm name: " + value + ". Supported: " + DebugList(SUPPORTED_ALGORITHMS) + ".")
  }

  /** `From<&Algorithm> for &str`: the variant's name, one of the supported names. */
  function Name(a: Algorithm): (r: string)
  {
    match a
    case Md5(_) => MD5
    case Sha1(_) => SHA1
    case Sha256(_) => SHA256
    case Sha384(_) => SHA384
    case Sha512(_) => SHA512
    case Aes128CtsHmacSha196(_) => AES128_CTS_HMAC_SHA1_96
    case Aes256CtsHmacSha196(_) => AES256_CTS_HMAC_SHA1_96
    case HmacSha196Aes128(_) => HMAC_SHA1_96_AES128
    case HmacSha196Aes256(_) => HMAC_SHA1_96_AES256
    case Rsa(_) => RSA
    case Bcrypt(_) => BCRYPT
    case Zlib(_) => ZLIB
  }

  /** Parsing the name of an algorithm gives back its variant, with the default input. */
  lemma NameRoundTrip(a: Algorithm)
    ensures AlgorithmFromName(Name(a)) == Ok(DefaultOf(a))
  {
  }

  /** A name that parses is the name of the variant it parses to, which holds its default input. */
  lemma ParseRoundTrip(value: string)
    requires AlgorithmFromName(value).Ok?
    ensures var a := AlgorithmFromName(value).value; Name(a) == value && DefaultOf(a) == a
  {
  }

  /** Every variant with its default input, in the order of `SUPPORTED_ALGORITHMS`. */
  const ALL_ALGORITHMS: seq<Algorithm> :=
    [Md5([]), Sha1([]), Sha256([]), Sha512([]), Aes128CtsHmacSha196(DEFAULT_KRB_INPUT), Aes256CtsHmacSha196(DEFAULT_KRB_INPUT),
     HmacSha196Aes128(DEFAULT_KRB_INPUT_DATA), HmacSha196Aes256(DEFAULT_KRB_INPUT_DATA), Rsa(DEFAULT_RSA_INPUT),
     Sha384([]), Bcrypt(DEFAULT_BCRYPT_INPUT), Zlib(DEFAULT_ZLIB_INPUT)]

  /** The supported names are the names of the twelve variants, in order. */
  lemma SupportedNamesAreNames()
    ensures |ALL_ALGORITHMS| == |SUPPORTED_ALGORITHMS|
    ensures forall i :: 0 <= i < |ALL_ALGORITHMS| ==> Name(ALL_ALGORITHMS[i]) == SUPPORTED_ALGORITHMS[i]
  {
  }

  /** Every algorithm's name is one of the supported names. */
  lemma NameSupported(a: Algorithm)
    ensures Name(a) in SUPPORTED_ALGORITHMS
  {
    var i := match a
      case Md5(_) => 0 case Sha1(_) => 1 case Sha256(_) => 2 case Sha512(_) => 3
      case Aes128CtsHmacSha196(_) => 4 case Aes256CtsHmacSha196(_) => 5
      case HmacSha196Aes128(_) => 6 case HmacSha196Aes256(_) => 7
      case Rsa(_) => 8 case Sha384(_) => 9 case Bcrypt(_) => 10 case Zlib(_) => 11;
    assert Name(a) == SUPPORTED_ALGORITHMS[i];
  }

  /** `try_from` accepts exactly the twelve supported names, and each names what it parses to. */
  lemma AcceptsExactlySupported(value: string)
    ensures AlgorithmFromName(value).Ok? <==> value in SUPPORTED_ALGORITHMS
    ensures AlgorithmFromName(value).Ok? ==> Name(AlgorithmFromName(value).value) == value
  {
    if AlgorithmFromName(value).Ok? {
      ParseRoundTrip(value);
      NameSupported(AlgorithmFromName(value).value);
    }
    if value in SUPPORTED_ALGORITHMS {
      SupportedNamesAreNames();
      var i :| 0 <= i < |SUPPORTED_ALGORITHMS| && SUPPORTED_ALGORITHMS[i] == value;
      NameRoundTrip(ALL_ALGORITHMS[i]);
    }
  }

  /** The name depends on the variant alone. */
  lemma NameOfDefault(a: Algorithm)
    ensures Name(DefaultOf(a)) == Name(a) && DefaultOf(DefaultOf(a)) == DefaultOf(a)
  {
  }

  /** Two algorithms have the same name exactly when they are the same variant: the twelve names are distinct. */
  lemma NameInjective(a: Algorithm, b: Algorithm)
    ensures Name(a) == Name(b) <==> DefaultOf(a) == DefaultOf(b)
  {
    NameRoundTrip(a);
    NameRoundTrip(b);
    NameOfDefault(a);
    NameOfDefault(b);
  }

  /**
   * `PartialEq<&str> for &Algorithm`: whether `s` is the algorithm's name,
   * that is, whether `s` parses to the algorithm's variant.
   */
  function AlgorithmEqualsName(a: Algorithm, s: string): (r: bool)
    ensures r <==> AlgorithmFromName(s).Ok? && DefaultOf(AlgorithmFromName(s).value) == DefaultOf(a)
  {
    NameRoundTrip(a);
    NameOfDefault(a);
    if AlgorithmFromName(s).Ok? then
      ParseRoundTrip(s);
      NameInjective(a, AlgorithmFromName(s).value);
      Name(a) == s
    else
      Name(a) == s
  }

  // ---------------------------------------------------------------------
  // RSA hash names
  // ---------------------------------------------------------------------

  /** `RsaHashAlgorithm::try_from(&str)`: one of the eight RSA hash names, or an error listing them. */
  function RsaHashFromName(raw: string): (r: Result<RsaHashAlgorithm, string>)
    ensures r.Ok? ==> r.value.hash != OtherHash
    ensures r.Err? ==> r.error == "Invalid RSA hash algorithm: " + raw + ". Supported: " + DebugList(RSA_HASH_ALGOS) + "."
  {
    if RSA_HASH_MD5 == raw then Ok(RsaHashAlgorithm(MD5Hash))
    else if RSA_HASH_SHA1 == raw then Ok(RsaHashAlgorithm(SHA1Hash))
    else if RSA_HASH_SHA2_224 == raw then Ok(RsaHashAlgorithm(SHA2_224))
    else if RSA_HASH_SHA2_256 == raw then Ok(RsaHashAlgorithm(SHA2_256))
    else if RSA_HASH_SHA2_384 == raw then Ok(RsaHashAlgorithm(SHA2_384))
    else if RSA_HASH_SHA2_512 == raw then Ok(RsaHashAlgorithm(SHA2_512))
    else if RSA_HASH_SHA3_384 == raw then Ok(RsaHashAlgorithm(SHA3_384))
    else if RSA_HASH_SHA3_512 == raw then Ok(RsaHashAlgorithm(SHA3_512))
    else Err("Invalid RSA hash algorithm: " + raw + ". Supported: " + DebugList(RSA_HASH_ALGOS) + ".")
  }

  /** `From<&RsaHashAlgorithm> for &str`: the RSA hash name, or "Other" for a hash without one. */
  function RsaHashName(h: RsaHashAlgorithm): (r: string)
    ensures h.hash == OtherHash <==> r == "Other"
  {
    match h.hash
    case MD5Hash => RSA_HASH_ALGOS[0]
    case SHA1Hash => RSA_HASH_ALGOS[1]
    case SHA2_224 => RSA_HASH_ALGOS[2]
    case SHA2_256 => RSA_HASH_ALGOS[3]
    case SHA2_384 => RSA_HASH_ALGOS[4]
    case SHA2_512 => RSA_HASH_ALGOS[5]
    case SHA3_384 => RSA_HASH_ALGOS[6]
    case SHA3_512 => RSA_HASH_ALGOS[7]
    case OtherHash => "Other"
  }

  /** Parsing and naming are inverse on the hashes that have an RSA name; "Other" does not parse. */
  lemma RsaHashRoundTrip(h: RsaHashAlgorithm)
    ensures h.hash != OtherHash ==> RsaHashFromName(RsaHashName(h)) == Ok(h)
    ensures h.hash == OtherHash ==> RsaHashFromName(RsaHashName(h)).Err?
  {
  }

  /** Every hash with an RSA name, in the order of `RSA_HASH_ALGOS`. */
  const ALL_RSA_HASHES: seq<RsaHashAlgorithm> :=
    [RsaHashAlgorithm(MD5Hash), RsaHashAlgorithm(SHA1Hash), RsaHashAlgorithm(SHA2_224), RsaHashAlgorithm(SHA2_256),
     RsaHashAlgorithm(SHA2_384), RsaHashAlgorithm(SHA2_512), RsaHashAlgorithm(SHA3_384), RsaHashAlgorithm(SHA3_512)]

  /** The RSA hash names are the names of the eight hashes that have one, in order. */
  lemma RsaHashNamesAreNames()
    ensures |ALL_RSA_HASHES| == |RSA_HASH_ALGOS|
    ensures forall i :: 0 <= i < |ALL_RSA_HASHES| ==> RsaHashName(ALL_RSA_HASHES[i]) == RSA_HASH_ALGOS[i]
  {
  }

  /**
   * `try_from` accepts exactly the eight RSA hash names, each names what it
   * parses to, and a hash has a name from that list unless it is `OtherHash`.
   */
  lemma RsaHashAcceptsExactly(raw: string, h: RsaHashAlgorithm)
    ensures RsaHashFromName(raw).Ok? <==> raw in RSA_HASH_ALGOS
    ensures RsaHashFromName(raw).Ok? ==> RsaHashName(RsaHashFromName(raw).value) == raw
    ensures h.hash != OtherHash <==> RsaHashName(h) in RSA_HASH_ALGOS
  {
    RsaHashNamesAreNames();
    if RsaHashFromName(raw).Ok? {
      var g := RsaHashFromName(raw).value;
      RsaHashRoundTrip(g);
      var i := RsaHashIndex(g);
      assert RsaHashName(g) == RSA_HASH_ALGOS[i];
    }
    if raw in RSA_HASH_ALGOS {
      var i :| 0 <= i < |RSA_HASH_ALGOS| && RSA_HASH_ALGOS[i] == raw;
      RsaHashRoundTrip(ALL_RSA_HASHES[i]);
    }
    if h.hash != OtherHash {
      assert RsaHashName(h) == RSA_HASH_ALGOS[RsaHashIndex(h)];
    } else {
      assert "Other" !in RSA_HASH_ALGOS;
    }
  }

  /** The position of a named hash in `RSA_HASH_ALGOS`. */
  function RsaHashIndex(h: RsaHashAlgorithm): (i: nat)
    requires h.hash != OtherHash
    ensures i < |ALL_RSA_HASHES| && ALL_RSA_HASHES[i] == h
  {
    match h.hash
    case MD5Hash => 0
    case SHA1Hash => 1
    case SHA2_224 => 2
    case SHA2_256 => 3
    case SHA2_384 => 4
    case SHA2_512 => 5
    case SHA3_384 => 6
    case SHA3_512 => 7
  }

  /**
   * `PartialEq<&str> for RsaHashAlgorithm`: whether `s` is the hash's name. A
   * hash with an RSA name equals exactly the string that parses to it; the
   * hashes without one all equal "Other" and nothing else.
   */
  function RsaHashEqualsName(h: RsaHashAlgorithm, s: string): (r: bool)
    ensures h.hash != OtherHash ==> (r <==> RsaHashFromName(s) == Ok(h))
    ensures h.hash == OtherHash ==> (r <==> s == "Other")
  {
    RsaHashName(h) == s
  }

  // ---------------------------------------------------------------------
  // RSA actions
  // ---------------------------------------------------------------------

  /** `RsaAction::enumerate_actions`: the four action names. */
  function EnumerateActions(): (r: seq<string>)
    ensures |r| == 4
    ensures forall i :: 0 <= i < |r| ==> RsaActionFromName(r[i]).Ok? && ActionName(RsaActionFromName(r[i]).value) == r[i]
  {
    RSA_ACTIONS
  }

  /**
   * `RsaAction::try_from(&str)`: "Sign" and "Verify" give the action with its
   * default input, "Encrypt" and "Decrypt" the action with the bundled key;
   * any other literal is refused.
   */
  function RsaActionFromName(literal: string): (r: Result<RsaAction, ()>)
    ensures r.Ok? <==> literal in RSA_ACTIONS
    ensures r.Ok? ==> ActionName(r.value) == literal
  {
    if literal == RSA_ACTIONS[0] then Ok(Sign(DEFAULT_RSA_SIGN_INPUT))
    else if literal == RSA_ACTIONS[1] then Ok(Verify(DEFAULT_RSA_VERIFY_INPUT))
    else if literal == RSA_ACTIONS[2] then Ok(EncryptWith(BundledPublicKey))
    else if literal == RSA_ACTIONS[3] then Ok(DecryptWith(BundledPrivateKey))
    else Err(())
  }

  /** `AsRef<str> for RsaAction`: the action's name. */
  function ActionName(a: RsaAction): (r: string)
    ensures r in RSA_ACTIONS
  {
    match a
    case EncryptWith(_) => "Encrypt"
    case DecryptWith(_) => "Decrypt"
    case Sign(_) => "Sign"
    case Verify(_) => "Verify"
  }

  /** Parsing an action's name gives an action of the same kind: naming then parsing keeps the kind. */
  lemma ActionNameRoundTrip(a: RsaAction)
    ensures RsaActionFromName(ActionName(a)).Ok?
    ensures var b := RsaActionFromName(ActionName(a)).value;
      && (b.EncryptWith? <==> a.EncryptWith?) && (b.DecryptWith? <==> a.DecryptWith?)
      && (b.Sign? <==> a.Sign?) && (b.Verify? <==> a.Verify?)
  {
  }

  /**
   * `PartialEq<&str> for RsaAction`: whether `s` is the action's name, that
   * is, whether `s` parses to an action of the same kind.
   */
  function ActionEqualsName(a: RsaAction, s: string): (r: bool)
    ensures r <==> RsaActionFromName(s).Ok? && ActionName(RsaActionFromName(s).value) == ActionName(a)
  {
    ActionName(a) == s
  }

  // ---------------------------------------------------------------------
  // Mode switches
  // ---------------------------------------------------------------------

  /** `From<KrbMode> for bool`: decryption is `true`; `From<bool>` undoes it. */
  function KrbModeToBool(mode: KrbMode): (r: bool)
    ensures KrbModeFromBool(r) == mode
  {
    match mode
    case Encrypt => false
    case Decrypt => true
  }

  /** `From<bool> for KrbMode`: `true` is decryption. */
  function KrbModeFromBool(b: bool): (r: KrbMode)
    ensures r.Decrypt? <==> b
  {
    if b then Decrypt else Encrypt
  }

  /** The Kerberos mode switch and the bool are inverse translations. */
  lemma KrbModeRoundTrip(mode: KrbMode, b: bool)
    ensures KrbModeFromBool(KrbModeToBool(mode)) == mode
    ensures KrbModeToBool(KrbModeFromBool(b)) == b
  {
  }

  /** `From<ZlibMode> for bool`: decompression is `true`; `From<bool>` undoes it. */
  function ZlibModeToBool(mode: ZlibMode): (r: bool)
    ensures ZlibModeFromBool(r) == mode
  {
    match mode
    case Compress => false
    case Decompress => true
  }

  /** `From<bool> for ZlibMode`: `true` is decompression. */
  function ZlibModeFromBool(b: bool): (r: ZlibMode)
    ensures r.Decompress? <==> b
  {
    if b then Decompress else Compress
  }

  /** The Zlib mode switch and the bool are inverse translations. */
  lemma ZlibModeRoundTrip(mode: ZlibMode, b: bool)
    ensures ZlibModeFromBool(ZlibModeToBool(mode)) == mode
    ensures ZlibModeToBool(ZlibModeFromBool(b)) == b
  {
  }

  /** `From<&BcryptAction> for bool`: verifying is `true`, whatever the input. */
  function BcryptActionToBool(action: BcryptAction): (r: bool)
    ensures r <==> action.VerifyHash?
  {
    match action
    case Hash(_) => false
    case VerifyHash(_) => true
  }

  /** `From<bool> for BcryptAction`: the action `b` names, with its default input. */
  function BcryptActionFromBool(b: bool): (r: BcryptAction)
    ensures BcryptActionToBool(r) == b
    ensures r == Hash(BcryptHashAction(8, [])) || r == VerifyHash("")
  {
    if b then VerifyHash("") else Hash(DEFAULT_BCRYPT_HASH_ACTION)
  }

  /**
   * The bool survives the round trip through the bcrypt action; the action
   * survives the other way exactly when it holds its default input.
   */
  lemma BcryptActionRoundTrip(action: BcryptAction, b: bool)
    ensures BcryptActionToBool(BcryptActionFromBool(b)) == b
    ensures BcryptActionFromBool(BcryptActionToBool(action)) == action <==>
      action == Hash(BcryptHashAction(8, [])) || action == VerifyHash("")
  {
  }
}
