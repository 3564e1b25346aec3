/** The byte-level state machine of parser.go. A `Parser` value is the Go
    `Parser` struct; every `Parse*` step function consumes one byte and returns
    the next parser or the error that stops the parse. */
module Parser {
  import opened Results
  import opened Bytes
  import opened Strconv
  import opened Words
  import opened Records

  /** The parser's `flag`. `Unset` is the empty string `NewParser` leaves there. */
  datatype Flag =
    | Unset
    | Keyword | Param | Equal | Quote | StringValue | IntValue | Div
    | Algorithm | StringRawValue

  /** The `Parser` struct (parser.go:61-69); `params` only ever maps keys to
      `true`, so it is the set of keys already completed. */
  datatype Parser = Parser(
    parsedHeader: ParsedHeader,
    parsedDigestHeader: ParsedDigestHeader,
    keyword: seq<byte>,
    key: seq<byte>,
    value: seq<byte>,
    flag: Flag,
    params: set<seq<byte>>)

  /** `NewParser`: everything empty. */
  const NEW_PARSER := Parser(EMPTY_HEADER, EMPTY_DIGEST, [], [], [], Unset, {})

  const KEYWORD: seq<byte> := "Signature"

  /** The pseudo-header used when no `headers` parameter is given. */
  const CREATED_PSEUDO_HEADER: seq<byte> := "(created)"

  /** `getValueType` as a predicate: `created` and `expires` take integers. */
  predicate IsIntKey(k: seq<byte>) {
    k == "created" || k == "expires"
  }

  /** The six parameter names `setKeyValue` stores. */
  predicate IsKnownParam(k: seq<byte>) {
    k == "keyId" || k == "algorithm" || k == "headers" || k == "signature" || IsIntKey(k)
  }

  /** The state `=` leads to, chosen by `getValueType` (parser.go:233-238). */
  function ValueFlag(k: seq<byte>): (f: Flag)
    ensures f == IntValue || f == Quote
    ensures f == IntValue <==> IsIntKey(k)
  {
    if IsIntKey(k) then IntValue else Quote
  }

  /** `intToTime`: the digits as signed 32-bit seconds (`time.Unix(sec, 0)`). */
  function IntToTime(v: seq<byte>): (r: Result<int, NumError>)
    ensures r.Success? ==> MIN_INT32 <= r.value <= MAX_INT32
    ensures |v| > 0 && AllDigits(v) ==>
              (r.Success? <==> DecimalValue(v) <= MAX_INT32) &&
              (r.Success? ==> r.value == DecimalValue(v)) &&
              (r.Failure? ==> r.error == ErrRange)
  {
    if |v| > 0 && AllDigits(v) then
      ParseInt32Digits(v);
      ParseInt32(v)
    else ParseInt32(v)
  }

  /** The record-level effect of `setKeyValue` for key `k`, value `v`, given the
      keys `seen` so far: an empty value is refused first, then a repeated key;
      the six known keys are stored and any other key is dropped. */
  function StoreParam(h: ParsedHeader, seen: set<seq<byte>>, k: seq<byte>, v: seq<byte>)
    : (r: Result<ParsedHeader, ParseError>)
    ensures |v| == 0 ==> r == Failure(EmptyValue(k))
    ensures |v| > 0 && k in seen ==> r == Failure(DuplicateParam(k))
    ensures |v| > 0 && k !in seen && k == "created" && IntToTime(v).Failure? ==>
              r == Failure(WrongCreated(IntToTime(v).error))
    ensures |v| > 0 && k !in seen && k == "expires" && IntToTime(v).Failure? ==>
              r == Failure(WrongExpires(IntToTime(v).error))
    ensures r.Success? <==> |v| > 0 && k !in seen && (IsIntKey(k) ==> IntToTime(v).Success?)
    ensures r.Success? && !IsKnownParam(k) ==> r.value == h
    ensures r.Success? ==>
              && r.value.keyword == h.keyword
              && r.value.keyID == (if k == "keyId" then v else h.keyID)
              && r.value.algorithm == (if k == "algorithm" then v else h.algorithm)
              && r.value.signature == (if k == "signature" then v else h.signature)
              && r.value.headers == (if k == "headers" then Fields(v) else h.headers)
              && r.value.created == (if k == "created" then Some(IntToTime(v).value) else h.created)
              && r.value.expires == (if k == "expires" then Some(IntToTime(v).value) else h.expires)
  {
    if |v| == 0 then Failure(EmptyValue(k))
    else if k in seen then Failure(DuplicateParam(k))
    else if k == "keyId" then Success(h.(keyID := v))
    else if k == "algorithm" then Success(h.(algorithm := v))
    else if k == "headers" then Success(h.(headers := Fields(v)))
    else if k == "signature" then Success(h.(signature := v))
    else if k == "created" then
      match IntToTime(v)
      case Failure(e) => Failure(WrongCreated(e))
      case Success(t) => Success(h.(created := Some(t)))
    else if k == "expires" then
      match IntToTime(v)
      case Failure(e) => Failure(WrongExpires(e))
      case Success(t) => Success(h.(expires := Some(t)))
    else Success(h)
  }

  /** `r` is what completing the pair in `p` gives: the error `StoreParam`
      reports, or the record it stores with the key remembered, both buffers
      cleared and the parser in state `next`. */
  predicate CompletesPair(p: Parser, r: Result<Parser, ParseError>, next: Flag) {
    match StoreParam(p.parsedHeader, p.params, p.key, p.value)
    case Failure(e) => r == Failure(e)
    case Success(h) =>
      r == Success(p.(parsedHeader := h, params := p.params + {p.key}, key := [], value := [], flag := next))
  }

  /** `setKeyValue` (parser.go:369-415): store the completed pair, remember its
      key and clear the key and value buffers. */
  function SetKeyValue(p: Parser): (r: Result<Parser, ParseError>)
    ensures CompletesPair(p, r, p.flag)
    ensures r.Success? && !IsKnownParam(p.key) ==> r.value.parsedHeader == p.parsedHeader
  {
    var h :- StoreParam(p.parsedHeader, p.params, p.key, p.value);
    Success(p.(parsedHeader := h, params := p.params + {p.key}, key := [], value := []))
  }

  /** `setKeyword` (parser.go:358-367): the keyword letters must spell `Signature`. */
  function SetKeyword(p: Parser): (r: Result<Parser, ParseError>)
    ensures r.Success? <==> p.keyword == KEYWORD
    ensures r.Failure? ==> r.error == InvalidKeyword
    ensures r.Success? ==> r.value == p.(parsedHeader := p.parsedHeader.(keyword := KEYWORD))
  {
    if p.keyword != KEYWORD then Failure(InvalidKeyword)
    else Success(p.(parsedHeader := p.parsedHeader.(keyword := KEYWORD)))
  }

  /** `setDigest` (parser.go:426-441): an empty digest value is refused; the
      algorithm name is upper-cased and the value kept verbatim. */
  function SetDigest(p: Parser): (r: Result<Parser, ParseError>)
    ensures r.Success? <==> |p.value| > 0
    ensures r.Failure? ==> r.error == EmptyDigestValue
    ensures r.Success? ==>
              && r.value.parsedDigestHeader.digest == p.value
              && r.value.parsedDigestHeader.algo == ToUpperAll(p.key)
              && r.value.key == [] && r.value.value == [] && r.value.flag == p.flag
  {
    if |p.value| == 0 then Failure(EmptyDigestValue)
    else Success(p.(parsedDigestHeader := ParsedDigestHeader(ToUpperAll(p.key), p.value), key := [], value := []))
  }

  /** `parseKeyword` (parser.go:217-227): letters accumulate; a space after at
      least one letter ends the keyword; every other byte is skipped. */
  function ParseKeyword(p: Parser, cur: byte): (r: Result<Parser, ParseError>)
    ensures r.Failure? <==> cur == SPACE && |p.keyword| > 0 && p.keyword != KEYWORD
    ensures r.Failure? ==> r.error == InvalidKeyword
    ensures r.Success? && IsLetter(cur) ==> r.value == p.(keyword := p.keyword + [cur])
    ensures r.Success? && cur == SPACE && |p.keyword| > 0 ==>
              r.value == p.(flag := Param, parsedHeader := p.parsedHeader.(keyword := KEYWORD))
    ensures !IsLetter(cur) && !(cur == SPACE && |p.keyword| > 0) ==> r == Success(p)
  {
    if IsLetter(cur) then Success(p.(keyword := p.keyword + [cur]))
    else if cur == SPACE && |p.keyword| > 0 then SetKeyword(p.(flag := Param))
    else Success(p)
  }

  /** `parseKey` (parser.go:229-248): letters accumulate; `=` picks the value
      kind; a space after the key moves on to `equal`; spaces before the key
      are skipped; any other byte is an error. */
  function ParseKey(p: Parser, cur: byte): (r: Result<Parser, ParseError>)
    ensures r.Failure? <==> !IsLetter(cur) && cur != EQUAL && cur != SPACE
    ensures r.Failure? ==> r.error == UnsupportedSymbolInKey(cur)
    ensures r.Success? ==> r.value.value == p.value && r.value.params == p.params
                           && r.value.parsedHeader == p.parsedHeader
    ensures r.Success? && IsLetter(cur) ==> r.value.key == p.key + [cur] && r.value.flag == p.flag
    ensures cur == EQUAL ==> r == Success(p.(flag := ValueFlag(p.key)))
    ensures cur == SPACE ==> r == Success(if |p.key| > 0 then p.(flag := Equal) else p)
  {
    if IsLetter(cur) then Success(p.(key := p.key + [cur]))
    else if cur == EQUAL then Success(p.(flag := ValueFlag(p.key)))
    else if cur == SPACE && |p.key| > 0 then Success(p.(flag := Equal))
    else if cur != SPACE then Failure(UnsupportedSymbolInKey(cur))
    else Success(p)
  }

  /** `parseAlgorithm` (parser.go:250-264): name bytes accumulate until `=`. */
  function ParseAlgorithm(p: Parser, cur: byte): (r: Result<Parser, ParseError>)
    ensures r.Failure? <==> !IsAlgorithmByte(cur) && cur != EQUAL
    ensures r.Failure? ==> r.error == UnsupportedSymbolInAlgorithm(cur)
    ensures IsAlgorithmByte(cur) ==> r == Success(p.(key := p.key + [cur]))
    ensures cur == EQUAL ==> r == Success(p.(flag := StringRawValue))
  {
    if IsAlgorithmByte(cur) then Success(p.(key := p.key + [cur]))
    else if cur == EQUAL then Success(p.(flag := StringRawValue))
    else Failure(UnsupportedSymbolInAlgorithm(cur))
  }

  /** `parseEqual` (parser.go:266-283): spaces until `=`. */
  function ParseEqual(p: Parser, cur: byte): (r: Result<Parser, ParseError>)
    ensures r.Failure? <==> cur != EQUAL && cur != SPACE
    ensures r.Failure? ==> r.error == ExpectedEqualOrSpace(cur)
    ensures cur == EQUAL ==> r == Success(p.(flag := ValueFlag(p.key)))
    ensures cur == SPACE ==> r == Success(p)
  {
    if cur == EQUAL then Success(p.(flag := ValueFlag(p.key)))
    else if cur == SPACE then Success(p)
    else Failure(ExpectedEqualOrSpace(cur))
  }

  /** `parseQuote` (parser.go:285-297): spaces until the opening quote. */
  function ParseQuote(p: Parser, cur: byte): (r: Result<Parser, ParseError>)
    ensures r.Failure? <==> cur != QUOTE && cur != SPACE
    ensures r.Failure? ==> r.error == ExpectedQuoteOrSpace(cur)
    ensures cur == QUOTE ==> r == Success(p.(flag := StringValue))
    ensures cur == SPACE ==> r == Success(p)
  {
    if cur == QUOTE then Success(p.(flag := StringValue))
    else if cur == SPACE then Success(p)
    else Failure(ExpectedQuoteOrSpace(cur))
  }

  /** `parseStringValue` (parser.go:299-309): every byte but the quote is part
      of the value; the closing quote completes the pair and leads to `div`. */
  function ParseStringValue(p: Parser, cur: byte): (r: Result<Parser, ParseError>)
    ensures cur != QUOTE ==> r == Success(p.(value := p.value + [cur]))
    ensures cur == QUOTE ==> CompletesPair(p, r, Div)
  {
    if cur != QUOTE then Success(p.(value := p.value + [cur]))
    else SetKeyValue(p.(flag := Div))
  }

  /** `parseIntValue` (parser.go:311-329): digits accumulate; a space after
      some digits completes the pair and leads to `div`, a comma completes it
      and leads to `param`; spaces before the digits and every other byte
      (a sign, a quote, a letter) are skipped. */
  function ParseIntValue(p: Parser, cur: byte): (r: Result<Parser, ParseError>)
    ensures IsDigit(cur) ==> r == Success(p.(value := p.value + [cur]))
    ensures cur == SPACE && |p.value| > 0 ==> CompletesPair(p, r, Div)
    ensures cur == DIV ==> CompletesPair(p, r, Param)
    ensures !IsDigit(cur) && cur != DIV && !(cur == SPACE && |p.value| > 0) ==> r == Success(p)
  {
    if IsDigit(cur) then Success(p.(value := p.value + [cur]))
    else if cur == SPACE then
      if |p.value| == 0 then Success(p) else SetKeyValue(p.(flag := Div))
    else if cur == DIV then SetKeyValue(p.(flag := Param))
    else Success(p)
  }

  /** `parseStringRawValue` (parser.go:331-334): every byte is part of the digest. */
  function ParseStringRawValue(p: Parser, cur: byte): (r: Result<Parser, ParseError>)
    ensures r.Success?
    ensures r.value.value == p.value + [cur]
    ensures r.value.flag == p.flag && r.value.key == p.key
    ensures r.value.parsedDigestHeader == p.parsedDigestHeader && r.value.params == p.params
  {
    Success(p.(value := p.value + [cur]))
  }

  /** `parseDiv` (parser.go:336-348): spaces until the comma. */
  function ParseDiv(p: Parser, cur: byte): (r: Result<Parser, ParseError>)
    ensures r.Failure? <==> cur != DIV && cur != SPACE
    ensures r.Failure? ==> r.error == ExpectedDivOrSpace(cur)
    ensures cur == DIV ==> r == Success(p.(flag := Param))
    ensures cur == SPACE ==> r == Success(p)
  {
    if cur == DIV then Success(p.(flag := Param))
    else if cur == SPACE then Success(p)
    else Failure(ExpectedDivOrSpace(cur))
  }

  /** The stages the `parseSignature` loop dispatches on. */
  predicate SignatureStage(f: Flag)
  {
    f in {Keyword, Param, Equal, Quote, StringValue, IntValue, Div}
  }

  /** The stages the `parseDigest` loop dispatches on. */
  predicate DigestStage(f: Flag)
  {
    f in {Algorithm, StringRawValue}
  }

  /** One iteration of the `parseSignature` loop (parser.go:114-136). */
  function StepSignature(p: Parser, cur: byte): (r: Result<Parser, ParseError>)
    ensures r == Failure(UnexpectedStage) <==> !SignatureStage(p.flag)
  {
    match p.flag
    case Keyword => ParseKeyword(p, cur)
    case Param => ParseKey(p, cur)
    case Equal => ParseEqual(p, cur)
    case Quote => ParseQuote(p, cur)
    case StringValue => ParseStringValue(p, cur)
    case IntValue => ParseIntValue(p, cur)
    case Div => ParseDiv(p, cur)
    case _ => Failure(UnexpectedStage)
  }

  /** One iteration of the `parseDigest` loop (parser.go:166-178). */
  function StepDigest(p: Parser, cur: byte): (r: Result<Parser, ParseError>)
    ensures r == Failure(UnexpectedStage) <==> !DigestStage(p.flag)
    ensures p.flag == StringRawValue ==> r.Success? && r.value.flag == StringRawValue
  {
    match p.flag
    case Algorithm => ParseAlgorithm(p, cur)
    case StringRawValue => ParseStringRawValue(p, cur)
    case _ => Failure(UnexpectedStage)
  }

  /** The `parseSignature` loop over every byte, stopping at the first error. */
  function RunSignature(s: seq<byte>, p: Parser): (r: Result<Parser, ParseError>)
    ensures |s| == 0 ==> r == Success(p)
    ensures |s| > 0 && !SignatureStage(p.flag) ==> r == Failure(UnexpectedStage)
    decreases |s|
  {
    if |s| == 0 then Success(p)
    else
      var q :- StepSignature(p, s[0]);
      RunSignature(s[1..], q)
  }

  /** The `parseDigest` loop over every byte, stopping at the first error. */
  function RunDigest(s: seq<byte>, p: Parser): (r: Result<Parser, ParseError>)
    ensures |s| == 0 ==> r == Success(p)
    ensures |s| > 0 && !DigestStage(p.flag) ==> r == Failure(UnexpectedStage)
    ensures p.flag == StringRawValue ==> r.Success? && r.value.flag == StringRawValue && r.value.value == p.value + s
    decreases |s|
  {
    if |s| == 0 then Success(p)
    else
      var q :- StepDigest(p, s[0]);
      RunDigest(s[1..], q)
  }

  /** `handleSignatureEOF` (parser.go:184-205): at the end of the header a
      parse succeeds after a closing quote or a completed pair (`div`), with a
      pending integer that completes, or with the keyword `Signature` alone;
      it fails in the middle of a parameter. States that `parseSignature` never
      uses have no case and pass unchanged. */
  function HandleSignatureEof(p: Parser): (r: Result<Parser, ParseError>)
    ensures r.Success? <==>
              || p.flag in {Div, Unset, Algorithm, StringRawValue}
              || (p.flag == Keyword && p.keyword == KEYWORD)
              || (p.flag == IntValue && StoreParam(p.parsedHeader, p.params, p.key, p.value).Success?)
    ensures p.flag == Param ==> r == Failure(if |p.key| == 0 then ExpectedParameter else ExpectedEqualAndValue)
    ensures p.flag == Equal ==> r == Failure(ExpectedFieldValue)
    ensures p.flag == Quote ==> r == Failure(ExpectedQuoteAndValue)
    ensures p.flag == StringValue ==> r == Failure(ExpectedClosingQuote)
    ensures p.flag == Keyword ==> r == SetKeyword(p)
    ensures p.flag == IntValue ==> CompletesPair(p, r, IntValue)
  {
    match p.flag
    case Keyword => SetKeyword(p)
    case Param =>
      if |p.key| == 0 then Failure(ExpectedParameter) else Failure(ExpectedEqualAndValue)
    case Equal => Failure(ExpectedFieldValue)
    case Quote => Failure(ExpectedQuoteAndValue)
    case StringValue => Failure(ExpectedClosingQuote)
    case IntValue => SetKeyValue(p)
    case _ => Success(p)
  }

  /** `handleDigestEOF` (parser.go:207-215). */
  function HandleDigestEof(p: Parser): (r: Result<Parser, ParseError>)
    ensures p.flag == Algorithm ==> r == Failure(ExpectedDigestValue)
    ensures p.flag == StringRawValue ==> r == SetDigest(p)
    ensures p.flag != Algorithm && p.flag != StringRawValue ==> r == Success(p)
  {
    if p.flag == Algorithm then Failure(ExpectedDigestValue)
    else if p.flag == StringRawValue then SetDigest(p)
    else Success(p)
  }

  /** The `headers` default of draft-cavage-http-signatures section 2.1.6
      (parser.go:139-143). */
  function WithDefaultHeaders(h: ParsedHeader): (r: ParsedHeader)
    ensures |r.headers| > 0
    ensures |h.headers| > 0 ==> r == h
    ensures |h.headers| == 0 ==> r == h.(headers := [CREATED_PSEUDO_HEADER])
  {
    if |h.headers| == 0 then h.(headers := [CREATED_PSEUDO_HEADER]) else h
  }

  /** `parseSignature` (parser.go:96-146) from parser `p`. */
  function ParseSignature(p: Parser, header: seq<byte>): (r: Result<ParsedHeader, ParseError>)
    ensures |header| == 0 ==> r == Failure(EmptyHeader)
    ensures r.Success? ==> |r.value.headers| > 0
  {
    if |header| == 0 then Failure(EmptyHeader)
    else
      var q :- RunSignature(header, p);
      var q' :- HandleSignatureEof(q);
      Success(WithDefaultHeaders(q'.parsedHeader))
  }

  /** `parseDigest` (parser.go:148-182) from parser `p`. */
  function ParseDigest(p: Parser, header: seq<byte>): (r: Result<ParsedDigestHeader, ParseError>)
    ensures |header| == 0 ==> r == Failure(EmptyDigestHeader)
  {
    if |header| == 0 then Failure(EmptyDigestHeader)
    else
      var q :- RunDigest(header, p);
      var q' :- HandleDigestEof(q);
      Success(q'.parsedDigestHeader)
  }

  /** The parsers the three entry points start from (parser.go:79-94). */
  const AUTHORIZATION_START := NEW_PARSER.(flag := Keyword)
  const SIGNATURE_START := NEW_PARSER.(flag := Param)
  const DIGEST_START := NEW_PARSER.(flag := Algorithm)

  /** Running over `a + b` is running over `a`, then over `b`. */
  lemma {:induction false} RunSignatureConcat(a: seq<byte>, b: seq<byte>, p: Parser)
    ensures RunSignature(a + b, p) ==
              match RunSignature(a, p)
              case Failure(e) => Failure(e)
              case Success(q) => RunSignature(b, q)
    decreases |a|
  {
    if |a| > 0 {
      assert (a + b)[0] == a[0];
      assert (a + b)[1..] == a[1..] + b;
      match StepSignature(p, a[0])
      case Failure(e) =>
      case Success(q) => RunSignatureConcat(a[1..], b, q);
    } else {
      assert a + b == b;
    }
  }

  /** Once a prefix has been read without error, the parse of the whole header
      is the parse of the rest from where the prefix left off. */
  lemma ParseSignatureAfter(a: seq<byte>, b: seq<byte>, p: Parser, q: Parser)
    requires RunSignature(a, p) == Success(q) && |b| > 0
    ensures ParseSignature(p, a + b) == ParseSignature(q, b)
  {
    RunSignatureConcat(a, b, p);
  }
}
