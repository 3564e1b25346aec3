/** The parser's public surface (parser.go:78-94 and 443-460): the three
    entry points, each starting from a fresh `NewParser`, and the check for the
    two required fields. */
module Headers {
  import opened Results
  import opened Bytes
  import opened Records
  import opened Parser
  import opened Reachability
  import opened AuthorizationKeyword
  import opened DigestGrammar

  /** `ParseAuthorizationHeader`: `Signature keyId="…",…`. */
  function ParseAuthorizationHeader(header: seq<byte>): (r: Result<ParsedHeader, ParseError>)
    ensures |header| == 0 ==> r == Failure(EmptyHeader)
    ensures r.Failure? ==> r.error != UnexpectedStage
    ensures r.Success? ==> r.value.keyword == KEYWORD && HeaderInvariant(r.value) && |r.value.headers| > 0
    ensures r.Success? ==> KeywordOf(header) == KEYWORD
    ensures |header| > 0 && KeywordOf(header) != KEYWORD ==> r == Failure(InvalidKeyword)
  {
    SignatureAcceptance(header, true);
    if |header| == 0 then Failure(EmptyHeader)
    else
      KeywordDecides(header);
      var r := ParseSignature(AUTHORIZATION_START, header);
      if r.Success? then
        SignatureRecord(header, true);
        r
      else r
  }

  /** `ParseSignatureHeader`: `keyId="…",…` without a keyword. */
  function ParseSignatureHeader(header: seq<byte>): (r: Result<ParsedHeader, ParseError>)
    ensures |header| == 0 ==> r == Failure(EmptyHeader)
    ensures r.Failure? ==> r.error != UnexpectedStage
    ensures r.Success? ==> r.value.keyword == [] && HeaderInvariant(r.value) && |r.value.headers| > 0
  {
    SignatureAcceptance(header, false);
    var r := ParseSignature(SIGNATURE_START, header);
    if r.Success? then
      SignatureRecord(header, false);
      r
    else r
  }

  /** `ParseDigestHeader`: `NAME=value`. */
  function ParseDigestHeader(header: seq<byte>): (r: Result<ParsedDigestHeader, ParseError>)
    ensures r == DigestMeaning(header)
    ensures r.Success? ==> |r.value.digest| > 0 && forall i :: 0 <= i < |r.value.algo| ==> !IsLower(r.value.algo[i])
  {
    ParseDigestMeaning(header);
    ParseDigest(DIGEST_START, header)
  }

  /** `VerifySignatureFields`: `keyId` is checked before `signature`. */
  function VerifySignatureFields(h: ParsedHeader): (r: Outcome<ParseError>)
    ensures r.Fail? <==> h.keyID == [] || h.signature == []
    ensures h.keyID == [] ==> r == Fail(KeyIdNotSet)
    ensures h.keyID != [] && h.signature == [] ==> r == Fail(SignatureNotSet)
  {
    if h.keyID == [] then Fail(KeyIdNotSet)
    else if h.signature == [] then Fail(SignatureNotSet)
    else Pass
  }
}
