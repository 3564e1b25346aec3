/** The records the parser produces and the errors it reports (parser.go:26-58). */
module Records {
  import opened Results
  import opened Bytes
  import opened Strconv

  /** `ParsedHeader`: an `Authorization` or `Signature` header's parameters.
      `created` and `expires` are seconds since the Unix epoch; `None` stands
      for Go's zero `time.Time`, which is not the epoch. */
  datatype ParsedHeader = ParsedHeader(
    keyword: seq<byte>,
    keyID: seq<byte>,
    signature: seq<byte>,
    algorithm: seq<byte>,
    created: Option<int>,
    expires: Option<int>,
    headers: seq<seq<byte>>)

  /** Go's zero value `ParsedHeader{}`. */
  const EMPTY_HEADER := ParsedHeader([], [], [], [], None, None, [])

  /** `ParsedDigestHeader`: the algorithm name and the still-encoded digest. */
  datatype ParsedDigestHeader = ParsedDigestHeader(algo: seq<byte>, digest: seq<byte>)

  const EMPTY_DIGEST := ParsedDigestHeader([], [])

  /** Every `ParserError` the parser can build, carrying the key or byte that
      its message formats. */
  datatype ParseError =
    | EmptyHeader
    | EmptyDigestHeader
    | UnexpectedStage
    | ExpectedParameter
    | ExpectedEqualAndValue
    | ExpectedFieldValue
    | ExpectedQuoteAndValue
    | ExpectedClosingQuote
    | ExpectedDigestValue
    | InvalidKeyword
    | UnsupportedSymbolInKey(symbol: byte)
    | UnsupportedSymbolInAlgorithm(symbol: byte)
    | ExpectedEqualOrSpace(symbol: byte)
    | ExpectedQuoteOrSpace(symbol: byte)
    | ExpectedDivOrSpace(symbol: byte)
    | EmptyValue(key: seq<byte>)
    | DuplicateParam(key: seq<byte>)
    | WrongCreated(cause: NumError)
    | WrongExpires(cause: NumError)
    | EmptyDigestValue
    | KeyIdNotSet
    | SignatureNotSet

  /** The errors `handleSignatureEOF` and `handleDigestEOF` report. */
  predicate AtEndOfHeader(e: ParseError)
  {
    e.ExpectedParameter? || e.ExpectedEqualAndValue? || e.ExpectedFieldValue? ||
    e.ExpectedQuoteAndValue? || e.ExpectedClosingQuote? || e.ExpectedDigestValue?
  }

  /** The errors raised on a byte the current stage does not accept. */
  predicate AtSymbol(e: ParseError)
  {
    e.UnsupportedSymbolInKey? || e.UnsupportedSymbolInAlgorithm? ||
    e.ExpectedEqualOrSpace? || e.ExpectedQuoteOrSpace? || e.ExpectedDivOrSpace?
  }

  /** The opening of every message about a header that ends too early. */
  const END_OF_HEADER: string := "unexpected end of header, expected "

  /** The opening of every message about a rejected byte `c`. */
  function Found(c: byte): string
  {
    "found '" + [c] + "' \U{2014} "
  }

  /** What an end-of-header error says was still expected. */
  function Expected(e: ParseError): string
    requires AtEndOfHeader(e)
  {
    match e
    case ExpectedParameter => "parameter"
    case ExpectedEqualAndValue => "'=' symbol and field value"
    case ExpectedFieldValue => "field value"
    case ExpectedQuoteAndValue => "'\"' symbol and field value"
    case ExpectedClosingQuote => "'\"' symbol"
    case ExpectedDigestValue => "digest value"
  }

  /** What a rejected-byte error says about the byte. */
  function Unsupported(e: ParseError): string
    requires AtSymbol(e)
  {
    match e
    case UnsupportedSymbolInKey(_) => "unsupported symbol in key"
    case UnsupportedSymbolInAlgorithm(_) => "unsupported symbol in algorithm"
    case ExpectedEqualOrSpace(_) => "unsupported symbol, expected '=' or space symbol"
    case ExpectedQuoteOrSpace(_) => "unsupported symbol, expected '\"' or space symbol"
    case ExpectedDivOrSpace(_) => "unsupported symbol, expected ',' or space symbol"
  }

  /** A key in single quotes, as the messages quote it. */
  function Quoted(k: seq<byte>): string
  {
    "'" + k + "'"
  }

  /** What an error about a rejected key says before quoting the key. */
  function KeyIntro(e: ParseError): string
    requires e.EmptyValue? || e.DuplicateParam?
  {
    if e.EmptyValue? then "empty value for key " else "duplicate param "
  }

  /** The message of every other error: a fixed text. */
  function Plain(e: ParseError): string
    requires !AtEndOfHeader(e) && !AtSymbol(e) && !e.EmptyValue? && !e.DuplicateParam?
  {
    match e
    case EmptyHeader => "empty header"
    case EmptyDigestHeader => "empty digest header"
    case UnexpectedStage => "unexpected parser stage"
    case InvalidKeyword => "invalid Authorization header, must start from Signature keyword"
    case WrongCreated(_) => "wrong 'created' param value"
    case WrongExpires(_) => "wrong 'expires' param value"
    case EmptyDigestValue => "empty digest value"
    case KeyIdNotSet => "keyId is not set in header"
    case SignatureNotSet => "signature is not set in header"
  }

  /** The `Message` field of the `ParserError` (the wrapped `strconv` error of
      the two `Wrong*` cases is kept in `cause`): the end-of-header errors say
      so, a rejected byte is quoted first, a rejected key is quoted last. */
  function Message(e: ParseError): (m: string)
    ensures AtEndOfHeader(e) ==> END_OF_HEADER <= m
    ensures AtSymbol(e) ==> Found(e.symbol) <= m
  {
    if AtEndOfHeader(e) then END_OF_HEADER + Expected(e)
    else if AtSymbol(e) then Found(e.symbol) + Unsupported(e)
    else if e.EmptyValue? || e.DuplicateParam? then KeyIntro(e) + Quoted(e.key)
    else Plain(e)
  }

  /** The errors about a key end with the key, in quotes. */
  lemma MessageQuotesKey(e: ParseError)
    requires e.EmptyValue? || e.DuplicateParam?
    ensures |Message(e)| > |Quoted(e.key)|
    ensures Message(e)[|Message(e)| - |Quoted(e.key)|..] == Quoted(e.key)
  {
    var intro := KeyIntro(e);
    assert |intro| > 0;
    assert Message(e) == intro + Quoted(e.key);
  }
}
