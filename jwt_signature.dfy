/**
 * The signature algorithm named in a JWT header's `alg` field: HS256, HS512,
 * or any other name kept as it was written.
 */
module JwtSignature {
  import opened Results

  /** A JSON value as the JSON library delivers it; number literals are kept as their text. */
  datatype Json =
    | Null
    | Bool(flag: bool)
    | Number(literal: string)
    | String(text: string)
    | Array(items: seq<Json>)
    | Object(members: seq<(string, Json)>)

  /** The names of the supported algorithms. */
  const JWT_SIGNATURE_ALGORITHMS: seq<string> := ["HS256", "HS512"]

  /** The algorithm; each variant carries the key it is used with. */
  datatype JwtSignatureAlgorithm = Hs256(key: string) | Hs512(key: string) | Unsupported(name: string)

  /** `key_len_hint`: the key length in bytes the user interface suggests for the algorithm. */
  function KeyLenHint(a: JwtSignatureAlgorithm): (r: Option<nat>)
    ensures a.Hs256? <==> r == Some(32)
    ensures a.Hs512? <==> r == Some(64)
    ensures a.Unsupported? <==> r == None
  {
    match a
    case Hs256(_) => Some(32)
    case Hs512(_) => Some(64)
    case Unsupported(_) => None
  }

  /** The error for an `alg` value of kind `kind` that is not a string. */
  function NotAString(kind: string): string
  {
    "Invalid jwt signature algorithm: " + kind + " but string extpected"
  }

  /**
   * `TryFrom<&Value>`: a string names the algorithm ("HS256", "HS512", or
   * any other name, which is kept); every other kind of JSON value is refused
   * with a message naming its kind.
   */
  function FromJson(value: Json): (r: Result<JwtSignatureAlgorithm, string>)
    ensures r.Ok? <==> value.String?
    ensures value.Null? ==> r == Err(NotAString("null"))
    ensures value.Bool? ==> r == Err(NotAString("bool"))
    ensures value.Number? ==> r == Err(NotAString("number"))
    ensures value.Array? ==> r == Err(NotAString("array"))
    ensures value.Object? ==> r == Err(NotAString("object"))
  {
    match value
    case Null => Err(NotAString("null"))
    case Bool(_) => Err(NotAString("bool"))
    case Number(_) => Err(NotAString("number"))
    case String(s) =>
      if s == JWT_SIGNATURE_ALGORITHMS[0] then Ok(Hs256(""))
      else if s == JWT_SIGNATURE_ALGORITHMS[1] then Ok(Hs512(""))
      else Ok(Unsupported(s))
    case Array(_) => Err(NotAString("array"))
    case Object(_) => Err(NotAString("object"))
  }

  /** "HS256" and "HS512" give those algorithms with an empty key; any other name is kept as unsupported. */
  lemma FromJsonString(s: string)
    ensures s == "HS256" ==> FromJson(String(s)) == Ok(Hs256(""))
    ensures s == "HS512" ==> FromJson(String(s)) == Ok(Hs512(""))
    ensures s != "HS256" && s != "HS512" ==> FromJson(String(s)) == Ok(Unsupported(s))
  {
  }

  /** `Default`: the unsupported algorithm with an empty name, which displays as "". */
  function DefaultAlgorithm(): (a: JwtSignatureAlgorithm)
    ensures a.Unsupported? && a.name == ""
    ensures Display(a) == "" && KeyLenHint(a) == None
  {
    Unsupported("")
  }

  /** `Display`: the algorithm's name; an unsupported one shows the name it was given. */
  function Display(a: JwtSignatureAlgorithm): (r: string)
    ensures a.Hs256? ==> r == "HS256"
    ensures a.Hs512? ==> r == "HS512"
    ensures a.Unsupported? ==> r == a.name
    ensures !a.Unsupported? ==> r in JWT_SIGNATURE_ALGORITHMS
  {
    match a
    case Hs256(_) => JWT_SIGNATURE_ALGORITHMS[0]
    case Hs512(_) => JWT_SIGNATURE_ALGORITHMS[1]
    case Unsupported(algo) => algo
  }

  /** Displaying what a string parses to gives back the string. */
  lemma DisplayParsed(s: string)
    ensures FromJson(String(s)).Ok? && Display(FromJson(String(s)).value) == s
  {
  }

  /** A parsed algorithm has a key length hint exactly when its name is one of the supported names. */
  lemma HintIffSupported(s: string)
    ensures FromJson(String(s)).Ok?
    ensures KeyLenHint(FromJson(String(s)).value).Some? <==> s in JWT_SIGNATURE_ALGORITHMS
  {
  }
}
