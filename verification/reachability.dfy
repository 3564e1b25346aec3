/** Facts about every parser state the signature loop can reach from the two
    signature entry points, and what they imply for the finished parse. */
module Reachability {
  import opened Results
  import opened Bytes
  import opened Strconv
  import opened Words
  import opened Records
  import opened Parser

  /** A record every successful step keeps: header names are non-empty,
      whitespace-free fields, and timestamps are non-negative 32-bit values
      (the integer states never keep a sign byte). */
  predicate HeaderInvariant(h: ParsedHeader) {
    && (forall i :: 0 <= i < |h.headers| ==> IsField(h.headers[i]))
    && (h.created.Some? ==> 0 <= h.created.value <= MAX_INT32)
    && (h.expires.Some? ==> 0 <= h.expires.value <= MAX_INT32)
  }

  /** The buffers agree with the state: keys hold letters only, an integer
      value holds digits only and belongs to `created` or `expires`, a quoted
      value never does, and the header list stays empty until `headers` is
      stored. */
  predicate SignatureInvariant(p: Parser) {
    && p.flag in {Keyword, Param, Equal, Quote, StringValue, IntValue, Div}
    && AllLetters(p.key)
    && (p.flag == Keyword || p.flag == Div ==> p.key == [])
    && (p.flag in {Keyword, Param, Equal, Quote, Div} ==> p.value == [])
    && (p.flag == Equal ==> |p.key| > 0)
    && (p.flag == Quote || p.flag == StringValue ==> !IsIntKey(p.key))
    && (p.flag == IntValue ==> IsIntKey(p.key) && AllDigits(p.value))
    && HeaderInvariant(p.parsedHeader)
    && ("headers" !in p.params ==> p.parsedHeader.headers == [])
  }

  /** An `Authorization` parse has stored the keyword exactly when it has left
      the keyword state; a `Signature` parse never enters it. */
  predicate KeywordInvariant(p: Parser, authorization: bool) {
    if authorization then
      && (p.flag == Keyword ==> p.parsedHeader.keyword == [])
      && (p.flag != Keyword ==> p.parsedHeader.keyword == KEYWORD)
    else
      p.flag != Keyword && p.parsedHeader.keyword == []
  }

  predicate Reachable(p: Parser, authorization: bool) {
    SignatureInvariant(p) && KeywordInvariant(p, authorization)
  }

  function Start(authorization: bool): Parser {
    if authorization then AUTHORIZATION_START else SIGNATURE_START
  }

  lemma StartReachable(authorization: bool)
    ensures Reachable(Start(authorization), authorization)
  {
  }

  lemma StoreParamKeepsInvariant(p: Parser)
    requires AllLetters(p.key)
    requires IsIntKey(p.key) ==> AllDigits(p.value)
    requires HeaderInvariant(p.parsedHeader)
    requires "headers" !in p.params ==> p.parsedHeader.headers == []
    requires StoreParam(p.parsedHeader, p.params, p.key, p.value).Success?
    ensures HeaderInvariant(StoreParam(p.parsedHeader, p.params, p.key, p.value).value)
  {
  }

  /** Completing a pair keeps the invariants, whichever state it leads to. */
  lemma SetKeyValueKeepsInvariant(p: Parser, next: Flag, authorization: bool)
    requires Reachable(p, authorization)
    requires p.flag == StringValue || p.flag == IntValue
    requires next == Div || next == Param
    requires SetKeyValue(p.(flag := next)).Success?
    ensures Reachable(SetKeyValue(p.(flag := next)).value, authorization)
  {
    StoreParamKeepsInvariant(p.(flag := next));
  }

  /** One successful step keeps a reachable state reachable. */
  lemma StepKeepsInvariant(p: Parser, c: byte, authorization: bool)
    requires Reachable(p, authorization)
    requires StepSignature(p, c).Success?
    ensures Reachable(StepSignature(p, c).value, authorization)
  {
    match p.flag
    case StringValue =>
      if c == QUOTE {
        SetKeyValueKeepsInvariant(p, Div, authorization);
      }
    case IntValue =>
      if c == DIV {
        SetKeyValueKeepsInvariant(p, Param, authorization);
      } else if c == SPACE && |p.value| > 0 {
        SetKeyValueKeepsInvariant(p, Div, authorization);
      }
    case _ =>
  }

  /** Whatever the input, a reachable state never meets the "unexpected
      parser stage" branch. */
  lemma StepNeverUnexpected(p: Parser, c: byte, authorization: bool)
    requires Reachable(p, authorization)
    ensures StepSignature(p, c) != Failure(UnexpectedStage)
  {
  }

  /** The loop keeps the invariants and never reports an unexpected stage. */
  lemma {:induction false} RunKeepsInvariant(s: seq<byte>, p: Parser, authorization: bool)
    requires Reachable(p, authorization)
    ensures RunSignature(s, p).Success? ==> Reachable(RunSignature(s, p).value, authorization)
    ensures RunSignature(s, p).Failure? ==> RunSignature(s, p).error != UnexpectedStage
    decreases |s|
  {
    if |s| > 0 {
      StepNeverUnexpected(p, s[0], authorization);
      if StepSignature(p, s[0]).Success? {
        StepKeepsInvariant(p, s[0], authorization);
        RunKeepsInvariant(s[1..], StepSignature(p, s[0]).value, authorization);
      }
    }
  }

  /** The three ways a signature parse may end well (parser.go:184-205). */
  predicate Accepting(q: Parser) {
    || q.flag == Div
    || (q.flag == IntValue && StoreParam(q.parsedHeader, q.params, q.key, q.value).Success?)
    || (q.flag == Keyword && q.keyword == KEYWORD)
  }

  /** The end state of the loop, when it accepts every byte. */
  lemma EndState(s: seq<byte>, authorization: bool) returns (q: Parser)
    requires |s| > 0 && RunSignature(s, Start(authorization)).Success?
    ensures q == RunSignature(s, Start(authorization)).value
    ensures Reachable(q, authorization)
    ensures ParseSignature(Start(authorization), s) ==
              match HandleSignatureEof(q)
              case Failure(e) => Failure(e)
              case Success(q') => Success(WithDefaultHeaders(q'.parsedHeader))
  {
    StartReachable(authorization);
    RunKeepsInvariant(s, Start(authorization), authorization);
    q := RunSignature(s, Start(authorization)).value;
  }

  /** A signature parse succeeds exactly when the header is non-empty, the
      loop accepts every byte and the end state is accepting; it never reports
      an unexpected stage. */
  lemma SignatureAcceptance(s: seq<byte>, authorization: bool)
    ensures ParseSignature(Start(authorization), s).Success? <==>
              |s| > 0 && RunSignature(s, Start(authorization)).Success?
              && Accepting(RunSignature(s, Start(authorization)).value)
    ensures ParseSignature(Start(authorization), s).Failure? ==>
              ParseSignature(Start(authorization), s).error != UnexpectedStage
  {
    StartReachable(authorization);
    RunKeepsInvariant(s, Start(authorization), authorization);
    if |s| > 0 && RunSignature(s, Start(authorization)).Success? {
      var q := EndState(s, authorization);
      EofAccepting(q, authorization);
    }
  }

  /** At the end of input, a reachable state is accepted exactly when it is
      accepting, and a refusal is never an unexpected stage. */
  lemma EofAccepting(q: Parser, authorization: bool)
    requires Reachable(q, authorization)
    ensures HandleSignatureEof(q).Success? <==> Accepting(q)
    ensures HandleSignatureEof(q).Failure? ==> HandleSignatureEof(q).error != UnexpectedStage
  {
    assert q.flag != Unset && q.flag != Algorithm && q.flag != StringRawValue;
  }

  /** A header that ends in a comma right after a complete parameter (a
      quoted value and its closing quote, or an integer that stores) reports
      a missing parameter. */
  lemma SignatureTrailingComma(t: seq<byte>, authorization: bool)
    requires RunSignature(t, Start(authorization)).Success?
    requires var q := RunSignature(t, Start(authorization)).value;
             q.flag == Div || (q.flag == IntValue && StoreParam(q.parsedHeader, q.params, q.key, q.value).Success?)
    ensures ParseSignature(Start(authorization), t + [DIV]) == Failure(ExpectedParameter)
  {
    var p := Start(authorization);
    StartReachable(authorization);
    RunKeepsInvariant(t, p, authorization);
    var q := RunSignature(t, p).value;
    RunSignatureConcat(t, [DIV], p);
    assert RunSignature([DIV], q) == StepSignature(q, DIV);
    match StepSignature(q, DIV)
    case Failure(e) =>
      assert false;
    case Success(q') =>
      assert q'.flag == Param && q'.key == [];
  }

  /** The record of a successful signature parse keeps the invariants, carries
      the keyword exactly for `Authorization`, and its header list falls back
      to `(created)` when no `headers` parameter was stored. */
  lemma SignatureRecord(s: seq<byte>, authorization: bool)
    requires ParseSignature(Start(authorization), s).Success?
    ensures var h := ParseSignature(Start(authorization), s).value;
            && HeaderInvariant(h) && |h.headers| > 0
            && h.keyword == (if authorization then KEYWORD else [])
            && ("headers" !in RunSignature(s, Start(authorization)).value.params ==>
                  h.headers == [CREATED_PSEUDO_HEADER])
  {
    var q := EndState(s, authorization);
    EofRecord(q, authorization);
    var h := HandleSignatureEof(q).value.parsedHeader;
    assert ParseSignature(Start(authorization), s).value == WithDefaultHeaders(h);
  }

  /** The record the end-of-input step leaves behind. */
  lemma EofRecord(q: Parser, authorization: bool)
    requires Reachable(q, authorization)
    requires HandleSignatureEof(q).Success?
    ensures var h := HandleSignatureEof(q).value.parsedHeader;
            && HeaderInvariant(h)
            && h.keyword == (if authorization then KEYWORD else [])
            && ("headers" !in q.params ==> h.headers == [])
  {
    if q.flag == IntValue {
      StoreParamKeepsInvariant(q);
    } else {
      assert q.flag == Keyword || q.flag == Div;
    }
  }
}
