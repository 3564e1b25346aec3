/** What an accepted `Signature` or `Authorization` header looks like and what
    record it yields, stated over a list of parameters rather than bytes: a
    header written as `name="value", name=123, …`, with any spaces around
    each parameter, parses to the record that storing the parameters one
    after another produces, and that record is described field by field. */
module Canonical {
  import opened Results
  import opened Bytes
  import opened Words
  import opened Records
  import opened Parser
  import opened Headers
  import opened AuthorizationKeyword

  /** How many spaces a header carries around one parameter: before its
      name, between the name and `=`, between `=` and the value, and after
      the value. */
  datatype Layout = Layout(lead: nat, beforeEqual: nat, afterEqual: nat, trail: nat)

  /** No space at all: `name="value"`. */
  const TIGHT := Layout(0, 0, 0, 0)

  datatype Parameter = Parameter(name: seq<byte>, value: seq<byte>, layout: Layout)

  /** A parameter the written form can express: a letters-only name; digits
      for `created` and `expires`, which are written bare; no quote inside
      any other value, which is written between quotes. */
  predicate Writable(p: Parameter) {
    && AllLetters(p.name)
    && (IsIntKey(p.name) ==> AllDigits(p.value))
    && (!IsIntKey(p.name) ==> forall i :: 0 <= i < |p.value| ==> p.value[i] != QUOTE)
  }

  predicate AllWritable(ps: seq<Parameter>) {
    forall i :: 0 <= i < |ps| ==> Writable(ps[i])
  }

  function Spaces(n: nat): seq<byte> {
    seq(n, _ => SPACE)
  }

  /** The name up to and including `=`, with its spaces. */
  function KeyText(p: Parameter): seq<byte> {
    Spaces(p.layout.lead) + p.name + Spaces(p.layout.beforeEqual) + [EQUAL]
  }

  /** The value after `=`, bare or quoted, with its spaces. */
  function ValueText(p: Parameter): seq<byte> {
    Spaces(p.layout.afterEqual)
    + (if IsIntKey(p.name) then p.value else [QUOTE] + p.value + [QUOTE])
    + Spaces(p.layout.trail)
  }

  function Render(p: Parameter): seq<byte> {
    KeyText(p) + ValueText(p)
  }

  /** The parameters written one after another, separated by commas. */
  function RenderAll(ps: seq<Parameter>): seq<byte> {
    if |ps| == 0 then []
    else if |ps| == 1 then Render(ps[0])
    else RenderAll(ps[..|ps| - 1]) + [DIV] + Render(ps[|ps| - 1])
  }

  function Names(ps: seq<Parameter>): set<seq<byte>> {
    set i | 0 <= i < |ps| :: ps[i].name
  }

  /** Storing the parameters in order into `base`, as `setKeyValue` does,
      stopping at the first refusal. */
  function Interpret(base: ParsedHeader, ps: seq<Parameter>): Result<ParsedHeader, ParseError> {
    if |ps| == 0 then Success(base)
    else
      var pre := ps[..|ps| - 1];
      var last := ps[|ps| - 1];
      var h :- Interpret(base, pre);
      StoreParam(h, Names(pre), last.name, last.value)
  }

  /** The record a parse hands back: the stored one with the `headers` default. */
  function Finish(r: Result<ParsedHeader, ParseError>): Result<ParsedHeader, ParseError> {
    var h :- r;
    Success(WithDefaultHeaders(h))
  }

  /** A parser about to read the first byte of a parameter, with nothing stored. */
  predicate AtFirstParam(p: Parser) {
    p.flag == Param && p.key == [] && p.value == [] && p.params == {}
  }

  lemma {:induction false} KeyBytes(name: seq<byte>, p: Parser)
    requires p.flag == Param && AllLetters(name)
    ensures RunSignature(name, p) == Success(p.(key := p.key + name))
    decreases |name|
  {
    if |name| == 0 {
      assert p.key + name == p.key;
    } else {
      KeyBytes(name[1..], p.(key := p.key + [name[0]]));
      assert p.key + [name[0]] + name[1..] == p.key + name;
    }
  }

  lemma {:induction false} DigitBytes(d: seq<byte>, p: Parser)
    requires p.flag == IntValue && AllDigits(d)
    ensures RunSignature(d, p) == Success(p.(value := p.value + d))
    decreases |d|
  {
    if |d| == 0 {
      assert p.value + d == p.value;
    } else {
      DigitBytes(d[1..], p.(value := p.value + [d[0]]));
      assert p.value + [d[0]] + d[1..] == p.value + d;
    }
  }

  lemma {:induction false} QuotedBytes(v: seq<byte>, p: Parser)
    requires p.flag == StringValue
    requires forall i :: 0 <= i < |v| ==> v[i] != QUOTE
    ensures RunSignature(v, p) == Success(p.(value := p.value + v))
    decreases |v|
  {
    if |v| == 0 {
      assert p.value + v == p.value;
    } else {
      QuotedBytes(v[1..], p.(value := p.value + [v[0]]));
      assert p.value + [v[0]] + v[1..] == p.value + v;
    }
  }

  /** The states in which a space changes nothing. */
  predicate SpaceIdle(p: Parser) {
    || p.flag == Div || p.flag == Quote || p.flag == Equal
    || (p.flag == Param && p.key == [])
    || (p.flag == IntValue && p.value == [])
  }

  lemma {:induction false} IdleSpaces(n: nat, p: Parser)
    requires SpaceIdle(p)
    ensures RunSignature(Spaces(n), p) == Success(p)
    decreases n
  {
    if n > 0 {
      assert Spaces(n)[0] == SPACE && Spaces(n)[1..] == Spaces(n - 1);
      IdleSpaces(n - 1, p);
    }
  }

  /** Spaces after a key: the first one moves on to `equal` when the key is
      not empty. */
  lemma KeySpaces(n: nat, p: Parser)
    requires p.flag == Param
    ensures RunSignature(Spaces(n), p) ==
              Success(if n > 0 && |p.key| > 0 then p.(flag := Equal) else p)
  {
    if n > 0 {
      var q := if |p.key| > 0 then p.(flag := Equal) else p;
      assert Spaces(n)[0] == SPACE && Spaces(n)[1..] == Spaces(n - 1);
      assert StepSignature(p, SPACE) == Success(q);
      IdleSpaces(n - 1, q);
    }
  }

  /** Reading a written name up to its `=` picks the value kind by name. */
  lemma KeyPhase(prm: Parameter, p: Parser)
    requires p.flag == Param && p.key == [] && AllLetters(prm.name)
    ensures RunSignature(KeyText(prm), p) == Success(p.(key := prm.name, flag := ValueFlag(prm.name)))
  {
    var l := prm.layout;
    IdleSpaces(l.lead, p);
    RunSignatureConcat(Spaces(l.lead), prm.name, p);
    KeyBytes(prm.name, p);
    var p1 := p.(key := prm.name);
    assert p.key + prm.name == prm.name;
    RunSignatureConcat(Spaces(l.lead) + prm.name, Spaces(l.beforeEqual), p);
    KeySpaces(l.beforeEqual, p1);
    var p2 := if l.beforeEqual > 0 && |prm.name| > 0 then p1.(flag := Equal) else p1;
    RunSignatureConcat(Spaces(l.lead) + prm.name + Spaces(l.beforeEqual), [EQUAL], p);
    assert RunSignature([EQUAL], p2) == StepSignature(p2, EQUAL);
  }

  /** The state right after one written parameter: an integer still pending
      in `intValue`, unless a space after its digits completed it; a quoted
      value completed at its closing quote. */
  function AfterParam(p: Parser, prm: Parameter): Result<Parser, ParseError> {
    var q := p.(key := prm.name, value := prm.value);
    if IsIntKey(prm.name) && (prm.layout.trail == 0 || |prm.value| == 0) then Success(q.(flag := IntValue))
    else SetKeyValue(q.(flag := Div))
  }

  /** Spaces after the digits: the first completes the pair when there are
      digits, and leads to `div`. */
  lemma IntTrail(n: nat, q: Parser)
    requires q.flag == IntValue
    ensures RunSignature(Spaces(n), q) ==
              if n == 0 || |q.value| == 0 then Success(q) else SetKeyValue(q.(flag := Div))
  {
    if n == 0 {
      assert Spaces(n) == [];
    } else if |q.value| == 0 {
      IdleSpaces(n, q);
    } else {
      var rest: nat := n - 1;
      assert Spaces(n)[0] == SPACE && Spaces(n)[1..] == Spaces(rest);
      assert StepSignature(q, SPACE) == SetKeyValue(q.(flag := Div));
      match SetKeyValue(q.(flag := Div))
      case Failure(e) =>
      case Success(r) =>
        IdleSpaces(rest, r);
    }
  }

  /** Reading a written bare integer after its `=`. */
  lemma IntValuePhase(prm: Parameter, q: Parser)
    requires IsIntKey(prm.name) && AllDigits(prm.value)
    requires q.flag == IntValue && q.key == prm.name && q.value == []
    ensures RunSignature(ValueText(prm), q) == AfterParam(q, prm)
  {
    var l := prm.layout;
    var q1 := q.(value := prm.value);
    IdleSpaces(l.afterEqual, q);
    RunSignatureConcat(Spaces(l.afterEqual), prm.value, q);
    DigitBytes(prm.value, q);
    assert q.value + prm.value == prm.value;
    RunSignatureConcat(Spaces(l.afterEqual) + prm.value, Spaces(l.trail), q);
    IntTrail(l.trail, q1);
  }

  /** Reading a written quoted value after its `=`. */
  lemma QuotedValuePhase(prm: Parameter, q: Parser)
    requires !IsIntKey(prm.name)
    requires forall i :: 0 <= i < |prm.value| ==> prm.value[i] != QUOTE
    requires q.flag == Quote && q.key == prm.name && q.value == []
    ensures RunSignature(ValueText(prm), q) == AfterParam(q, prm)
  {
    var l := prm.layout;
    var v := prm.value;
    var q1 := q.(flag := StringValue);
    var q2 := q1.(value := v);
    IdleSpaces(l.afterEqual, q);
    RunSignatureConcat(Spaces(l.afterEqual), [QUOTE] + v + [QUOTE], q);
    assert [QUOTE] + v + [QUOTE] == [QUOTE] + (v + [QUOTE]);
    assert RunSignature([QUOTE] + (v + [QUOTE]), q) == RunSignature(v + [QUOTE], q1);
    RunSignatureConcat(v, [QUOTE], q1);
    QuotedBytes(v, q1);
    assert q1.value + v == v;
    assert RunSignature([QUOTE], q2) == SetKeyValue(q2.(flag := Div));
    RunSignatureConcat(Spaces(l.afterEqual) + ([QUOTE] + v + [QUOTE]), Spaces(l.trail), q);
    match SetKeyValue(q2.(flag := Div))
    case Failure(e) =>
    case Success(r) =>
      IdleSpaces(l.trail, r);
  }

  /** Reading one written parameter from a parameter start. */
  lemma ParamBytes(prm: Parameter, p: Parser)
    requires p.flag == Param && p.key == [] && p.value == []
    requires Writable(prm)
    ensures RunSignature(Render(prm), p) == AfterParam(p, prm)
  {
    KeyPhase(prm, p);
    RunSignatureConcat(KeyText(prm), ValueText(prm), p);
    var q := p.(key := prm.name, flag := ValueFlag(prm.name));
    if IsIntKey(prm.name) {
      IntValuePhase(prm, q);
    } else {
      QuotedValuePhase(prm, q);
    }
  }

  /** The state after the written parameters, before the next comma or the
      end of the header. */
  function Pending(p: Parser, ps: seq<Parameter>): Result<Parser, ParseError>
    requires |ps| > 0
  {
    var pre := ps[..|ps| - 1];
    var last := ps[|ps| - 1];
    var h :- Interpret(p.parsedHeader, pre);
    AfterParam(p.(parsedHeader := h, params := Names(pre)), last)
  }

  lemma NamesSnoc(ps: seq<Parameter>)
    requires |ps| > 0
    ensures Names(ps) == Names(ps[..|ps| - 1]) + {ps[|ps| - 1].name}
  {
    var pre := ps[..|ps| - 1];
    forall k | k in Names(ps)
      ensures k in Names(pre) + {ps[|ps| - 1].name}
    {
      var i :| 0 <= i < |ps| && ps[i].name == k;
      if i < |ps| - 1 {
        assert pre[i] == ps[i];
      }
    }
    forall k | k in Names(pre)
      ensures k in Names(ps)
    {
      var i :| 0 <= i < |pre| && pre[i].name == k;
      assert ps[i] == pre[i];
    }
  }

  /** After the comma that follows the written parameters, the parser is back
      at a parameter start with all of them stored. */
  lemma AfterComma(p: Parser, ps: seq<Parameter>)
    requires AtFirstParam(p) && |ps| > 0 && AllWritable(ps)
    requires RunSignature(RenderAll(ps), p) == Pending(p, ps)
    ensures RunSignature(RenderAll(ps) + [DIV], p) ==
              match Interpret(p.parsedHeader, ps)
              case Failure(e) => Failure(e)
              case Success(h) => Success(p.(parsedHeader := h, params := Names(ps)))
  {
    RunSignatureConcat(RenderAll(ps), [DIV], p);
    NamesSnoc(ps);
    var pre := ps[..|ps| - 1];
    var last := ps[|ps| - 1];
    match Interpret(p.parsedHeader, pre)
    case Failure(e) =>
    case Success(h) =>
      assert Interpret(p.parsedHeader, ps) == StoreParam(h, Names(pre), last.name, last.value);
      CommaAfterParam(p.(parsedHeader := h, params := Names(pre)), last);
  }

  /** The comma after one written parameter completes it, if a space has not
      already done so, and returns to a parameter start. */
  lemma CommaAfterParam(q0: Parser, prm: Parameter)
    requires q0.flag == Param && q0.key == [] && q0.value == []
    ensures (match AfterParam(q0, prm)
             case Failure(e) => Failure(e)
             case Success(q) => RunSignature([DIV], q)) ==
            match StoreParam(q0.parsedHeader, q0.params, prm.name, prm.value)
            case Failure(e) => Failure(e)
            case Success(h) => Success(q0.(parsedHeader := h, params := q0.params + {prm.name}))
  {
    var q1 := q0.(key := prm.name, value := prm.value);
    if IsIntKey(prm.name) && (prm.layout.trail == 0 || |prm.value| == 0) {
      var q := q1.(flag := IntValue);
      assert RunSignature([DIV], q) == SetKeyValue(q.(flag := Param));
    } else {
      match SetKeyValue(q1.(flag := Div))
      case Failure(e) =>
      case Success(q) =>
        assert RunSignature([DIV], q) == Success(q.(flag := Param));
    }
  }

  /** Reading the written parameters leaves the pending state. */
  lemma {:induction false} RenderRun(p: Parser, ps: seq<Parameter>)
    requires AtFirstParam(p) && |ps| > 0 && AllWritable(ps)
    ensures RunSignature(RenderAll(ps), p) == Pending(p, ps)
    decreases |ps|
  {
    var pre := ps[..|ps| - 1];
    var last := ps[|ps| - 1];
    if |ps| == 1 {
      assert pre == [];
      assert Names(pre) == {};
      assert Interpret(p.parsedHeader, pre) == Success(p.parsedHeader);
      ParamBytes(last, p);
      assert RenderAll(ps) == Render(last);
    } else {
      RenderRun(p, pre);
      AfterComma(p, pre);
      RunSignatureConcat(RenderAll(pre) + [DIV], Render(last), p);
      match Interpret(p.parsedHeader, pre)
      case Failure(e) =>
      case Success(h) =>
        ParamBytes(last, p.(parsedHeader := h, params := Names(pre)));
    }
  }

  /** Parsing written parameters from a parameter start gives the stored
      record with the `headers` default. */
  lemma RenderParse(p: Parser, ps: seq<Parameter>)
    requires AtFirstParam(p) && |ps| > 0 && AllWritable(ps)
    ensures ParseSignature(p, RenderAll(ps)) == Finish(Interpret(p.parsedHeader, ps))
  {
    var s := RenderAll(ps);
    RenderRun(p, ps);
    assert |s| > 0 by {
      if |ps| > 1 {
        assert s == RenderAll(ps[..|ps| - 1]) + [DIV] + Render(ps[|ps| - 1]);
      } else {
        assert s == Render(ps[0]);
      }
    }
    PendingEnd(p, ps);
  }

  /** The end of the header completes a pending integer; a stored quoted value
      is already complete. */
  lemma PendingEnd(p: Parser, ps: seq<Parameter>)
    requires AtFirstParam(p) && |ps| > 0
    ensures (match Pending(p, ps)
             case Failure(e) => Failure(e)
             case Success(q) =>
               match HandleSignatureEof(q)
               case Failure(e) => Failure(e)
               case Success(q') => Success(WithDefaultHeaders(q'.parsedHeader)))
            == Finish(Interpret(p.parsedHeader, ps))
  {
    var pre := ps[..|ps| - 1];
    var last := ps[|ps| - 1];
    match Interpret(p.parsedHeader, pre)
    case Failure(e) =>
    case Success(h) =>
      var q := p.(parsedHeader := h, params := Names(pre), key := last.name, value := last.value);
      assert Interpret(p.parsedHeader, ps) == StoreParam(h, Names(pre), last.name, last.value);
      if IsIntKey(last.name) && (last.layout.trail == 0 || |last.value| == 0) {
        assert Pending(p, ps) == Success(q.(flag := IntValue));
        assert HandleSignatureEof(q.(flag := IntValue)) == SetKeyValue(q.(flag := IntValue));
      } else {
        assert Pending(p, ps) == SetKeyValue(q.(flag := Div));
      }
  }

  /** Round trip for `Signature` headers: parsing the written text of a
      parameter list gives exactly the record storing the list produces. */
  lemma SignatureHeaderRoundTrip(ps: seq<Parameter>)
    requires AllWritable(ps)
    ensures ParseSignatureHeader(RenderAll(ps)) ==
              if |ps| == 0 then Failure(EmptyHeader) else Finish(Interpret(EMPTY_HEADER, ps))
  {
    if |ps| > 0 {
      RenderParse(SIGNATURE_START, ps);
    }
  }

  /** `keyId="a", signature="b"`: the second parameter has a space before it. */
  function SpacedParams(): seq<Parameter> {
    [Parameter("keyId", "a", TIGHT), Parameter("signature", "b", Layout(1, 0, 0, 0))]
  }

  lemma SpacedText()
    ensures RenderAll(SpacedParams()) == "keyId=\"a\", signature=\"b\""
  {
    var ps := SpacedParams();
    assert ps[..1] == [ps[0]];
    RenderTight(ps[0]);
    RenderLead(ps[1]);
    assert RenderAll(ps) == Render(ps[0]) + [DIV] + Render(ps[1]);
  }

  lemma RenderTight(p: Parameter)
    requires p == Parameter("keyId", "a", TIGHT)
    ensures Render(p) == "keyId=\"a\""
  {
    assert Spaces(0) == [];
    assert KeyText(p) == "keyId=";
    assert ValueText(p) == "\"a\"";
  }

  lemma RenderLead(p: Parameter)
    requires p == Parameter("signature", "b", Layout(1, 0, 0, 0))
    ensures Render(p) == " signature=\"b\""
  {
    assert Spaces(1) == [SPACE] && Spaces(0) == [];
    assert KeyText(p) == " signature=";
    assert ValueText(p) == "\"b\"";
  }

  lemma SpacedRecord()
    ensures Interpret(EMPTY_HEADER, SpacedParams()) ==
              Success(EMPTY_HEADER.(keyID := "a", signature := "b"))
  {
    var ps := SpacedParams();
    var h1 := EMPTY_HEADER.(keyID := "a");
    assert ps[..1] == [ps[0]];
    assert Interpret(EMPTY_HEADER, [ps[0]]) == Success(h1) by {
      assert [ps[0]][..0] == [];
    }
    assert Names([ps[0]]) == {"keyId"};
  }

  /** A space after the comma is one of the spellings the round trip covers:
      `keyId="a", signature="b"` yields both fields and the default list. */
  lemma SpacedHeader()
    ensures ParseSignatureHeader("keyId=\"a\", signature=\"b\"") ==
              Success(EMPTY_HEADER.(keyID := "a", signature := "b", headers := [CREATED_PSEUDO_HEADER]))
  {
    var ps := SpacedParams();
    assert AllWritable(ps);
    SpacedText();
    SpacedRecord();
    SignatureHeaderRoundTrip(ps);
  }

  /** Round trip for `Authorization` headers: `Signature ` followed by the
      written text gives the same record with the keyword set; with no
      parameter at all the header ends after the keyword's space and is
      refused. */
  lemma AuthorizationHeaderRoundTrip(ps: seq<Parameter>)
    requires AllWritable(ps)
    ensures ParseAuthorizationHeader(KEYWORD + [SPACE] + RenderAll(ps)) ==
              if |ps| == 0 then Failure(ExpectedParameter)
              else Finish(Interpret(EMPTY_HEADER.(keyword := KEYWORD), ps))
  {
    var prefix := KEYWORD + [SPACE];
    var s := prefix + RenderAll(ps);
    assert ParseAuthorizationHeader(s) == ParseSignature(AUTHORIZATION_START, s);
    var p := KeywordPrefix();
    if |ps| == 0 {
      assert s == prefix;
    } else {
      AfterKeyword(p, ps);
    }
  }

  /** Behind `Signature `, the parse goes on as from the first parameter. */
  lemma AfterKeyword(p: Parser, ps: seq<Parameter>)
    requires AllWritable(ps) && |ps| > 0
    requires AtFirstParam(p) && RunSignature(KEYWORD + [SPACE], AUTHORIZATION_START) == Success(p)
    ensures ParseSignature(AUTHORIZATION_START, KEYWORD + [SPACE] + RenderAll(ps)) ==
              Finish(Interpret(p.parsedHeader, ps))
  {
    RenderParse(p, ps);
    ParseSignatureAfter(KEYWORD + [SPACE], RenderAll(ps), AUTHORIZATION_START, p);
  }

  /** `Signature ` takes the parser to its first parameter with the keyword stored. */
  lemma KeywordPrefix() returns (p: Parser)
    ensures p == AUTHORIZATION_START.(keyword := KEYWORD, flag := Param,
                                      parsedHeader := EMPTY_HEADER.(keyword := KEYWORD))
    ensures AtFirstParam(p)
    ensures RunSignature(KEYWORD + [SPACE], AUTHORIZATION_START) == Success(p)
  {
    var s := KEYWORD + [SPACE];
    assert s[..9] == KEYWORD;
    assert AllLetters(KEYWORD);
    assert forall i :: 0 <= i < 9 ==> s[i] != SPACE;
    assert KeywordEnd(s) >= 9;
    KeywordPhase(s, 9);
    LettersOfLetters(KEYWORD);
    var q := AUTHORIZATION_START.(keyword := KEYWORD);
    p := q.(flag := Param, parsedHeader := EMPTY_HEADER.(keyword := KEYWORD));
    assert s == s[..9] + [SPACE];
    RunSignatureConcat(s[..9], [SPACE], AUTHORIZATION_START);
    assert RunSignature([SPACE], q) == StepSignature(q, SPACE);
  }

  /** The value of the last parameter called `k`, if any. */
  function Lookup(ps: seq<Parameter>, k: seq<byte>): Option<seq<byte>> {
    if |ps| == 0 then None
    else if ps[|ps| - 1].name == k then Some(ps[|ps| - 1].value)
    else Lookup(ps[..|ps| - 1], k)
  }

  predicate DistinctNames(ps: seq<Parameter>) {
    forall i, j :: 0 <= i < j < |ps| ==> ps[i].name != ps[j].name
  }

  /** A parameter `setKeyValue` accepts once its name is new: a non-empty
      value that, for `created` and `expires`, reads as 32-bit seconds. */
  predicate Storable(p: Parameter) {
    |p.value| > 0 && (IsIntKey(p.name) ==> IntToTime(p.value).Success?)
  }

  predicate AllStorable(ps: seq<Parameter>) {
    forall i :: 0 <= i < |ps| ==> Storable(ps[i])
  }

  function Seconds(v: seq<byte>): Option<int> {
    match IntToTime(v)
    case Success(t) => Some(t)
    case Failure(_) => None
  }

  /** The record a parameter list denotes, field by field: each known field
      takes the value of the parameter of that name, `headers` split into
      fields, the timestamps read as seconds; fields without a parameter keep
      the value in `base`, and unknown names leave no trace. */
  function Meaning(base: ParsedHeader, ps: seq<Parameter>): ParsedHeader {
    var keyID := Lookup(ps, "keyId");
    var algorithm := Lookup(ps, "algorithm");
    var signature := Lookup(ps, "signature");
    var headers := Lookup(ps, "headers");
    var created := Lookup(ps, "created");
    var expires := Lookup(ps, "expires");
    base.(
      keyID := if keyID.Some? then keyID.value else base.keyID,
      algorithm := if algorithm.Some? then algorithm.value else base.algorithm,
      signature := if signature.Some? then signature.value else base.signature,
      headers := if headers.Some? then Fields(headers.value) else base.headers,
      created := if created.Some? then Seconds(created.value) else base.created,
      expires := if expires.Some? then Seconds(expires.value) else base.expires)
  }

  lemma {:induction false} LookupNames(ps: seq<Parameter>, k: seq<byte>)
    ensures Lookup(ps, k).Some? <==> k in Names(ps)
    ensures Lookup(ps, k).Some? ==>
              exists i :: 0 <= i < |ps| && ps[i].name == k && ps[i].value == Lookup(ps, k).value
    decreases |ps|
  {
    if |ps| > 0 {
      var pre := ps[..|ps| - 1];
      LookupNames(pre, k);
      NamesSnoc(ps);
      if Lookup(ps, k).Some? && ps[|ps| - 1].name != k {
        var i :| 0 <= i < |pre| && pre[i].name == k && pre[i].value == Lookup(pre, k).value;
        assert ps[i] == pre[i];
      }
    }
  }

  /** Storing a parameter list succeeds exactly when the names are distinct
      and every parameter is storable, and then yields the record the list
      denotes. */
  lemma {:induction false} InterpretMeaning(base: ParsedHeader, ps: seq<Parameter>)
    ensures Interpret(base, ps).Success? <==> DistinctNames(ps) && AllStorable(ps)
    ensures Interpret(base, ps).Success? ==> Interpret(base, ps).value == Meaning(base, ps)
    decreases |ps|
  {
    if |ps| > 0 {
      var pre := ps[..|ps| - 1];
      var last := ps[|ps| - 1];
      InterpretMeaning(base, pre);
      NamesSnoc(ps);
      assert forall i :: 0 <= i < |pre| ==> pre[i] == ps[i];
      assert DistinctNames(ps) <==> DistinctNames(pre) && last.name !in Names(pre) by {
        if DistinctNames(ps) {
          forall k | k in Names(pre)
            ensures k != last.name
          {
            var i :| 0 <= i < |pre| && pre[i].name == k;
            assert ps[i].name == k;
          }
        }
        if DistinctNames(pre) && last.name !in Names(pre) {
          forall i, j | 0 <= i < j < |ps|
            ensures ps[i].name != ps[j].name
          {
            if j == |ps| - 1 {
              assert pre[i].name in Names(pre);
            } else {
              assert pre[i] == ps[i] && pre[j] == ps[j];
            }
          }
        }
      }
      assert AllStorable(ps) <==> AllStorable(pre) && Storable(last) by {
        if AllStorable(pre) && Storable(last) {
          forall i | 0 <= i < |ps|
            ensures Storable(ps[i])
          {
            if i < |pre| {
              assert pre[i] == ps[i];
            }
          }
        }
      }
      if Interpret(base, ps).Success? {
        var h := Interpret(base, pre).value;
        assert Interpret(base, ps) == StoreParam(h, Names(pre), last.name, last.value);
        var r := Interpret(base, ps).value;
        var m := Meaning(base, ps);
        assert r.keyID == m.keyID;
        assert r.algorithm == m.algorithm;
        assert r.signature == m.signature;
        assert r.headers == m.headers;
        assert r.created == m.created;
        assert r.expires == m.expires;
      }
    }
  }

  /** For a written header, the two required fields are present exactly when
      the list names `keyId` and `signature`. */
  lemma RequiredFields(ps: seq<Parameter>)
    requires AllWritable(ps)
    requires ParseSignatureHeader(RenderAll(ps)).Success?
    ensures VerifySignatureFields(ParseSignatureHeader(RenderAll(ps)).value) == Pass <==>
              "keyId" in Names(ps) && "signature" in Names(ps)
  {
    ParsedMeaning(ps);
    PresentField(ps, "keyId");
    PresentField(ps, "signature");
  }

  /** A written header that parses has distinct, storable parameters and
      yields the record they denote, with the `headers` default. */
  lemma ParsedMeaning(ps: seq<Parameter>)
    requires AllWritable(ps)
    requires ParseSignatureHeader(RenderAll(ps)).Success?
    ensures DistinctNames(ps) && AllStorable(ps)
    ensures ParseSignatureHeader(RenderAll(ps)).value == WithDefaultHeaders(Meaning(EMPTY_HEADER, ps))
  {
    SignatureHeaderRoundTrip(ps);
    InterpretMeaning(EMPTY_HEADER, ps);
  }

  /** With every value storable, a name has a non-empty value exactly when
      the list names it. */
  lemma PresentField(ps: seq<Parameter>, k: seq<byte>)
    requires AllStorable(ps)
    ensures (Lookup(ps, k).Some? && |Lookup(ps, k).value| > 0) <==> k in Names(ps)
  {
    LookupNames(ps, k);
    if Lookup(ps, k).Some? {
      var i :| 0 <= i < |ps| && ps[i].name == k && ps[i].value == Lookup(ps, k).value;
      assert Storable(ps[i]);
    }
  }

  /** For a written header, the header list is `(created)` when `headers`
      is absent or blank, and the fields of its value otherwise. */
  lemma CanonicalHeaderList(ps: seq<Parameter>)
    requires AllWritable(ps)
    requires ParseSignatureHeader(RenderAll(ps)).Success?
    ensures var h := ParseSignatureHeader(RenderAll(ps)).value;
            var v := Lookup(ps, "headers");
            && (v.None? || Blank(v.value) ==> h.headers == [CREATED_PSEUDO_HEADER])
            && (v.Some? && !Blank(v.value) ==> h.headers == Fields(v.value))
  {
    SignatureHeaderRoundTrip(ps);
    InterpretMeaning(EMPTY_HEADER, ps);
    var v := Lookup(ps, "headers");
    if v.Some? {
      FieldsEmptyIffBlank(v.value);
    }
  }

  /** Appending a parameter with a new, unrecognised name and a non-empty
      value changes nothing in the parsed record. */
  lemma InterpretUnknown(base: ParsedHeader, ps: seq<Parameter>, extra: Parameter)
    requires !IsKnownParam(extra.name) && extra.name !in Names(ps) && |extra.value| > 0
    ensures Interpret(base, ps + [extra]) == Interpret(base, ps)
  {
    var all := ps + [extra];
    assert all[..|all| - 1] == ps;
    assert all[|all| - 1] == extra;
  }

  lemma UnknownParamIgnored(ps: seq<Parameter>, extra: Parameter)
    requires |ps| > 0 && AllWritable(ps) && Writable(extra)
    requires !IsKnownParam(extra.name) && extra.name !in Names(ps) && |extra.value| > 0
    ensures ParseSignatureHeader(RenderAll(ps + [extra])) == ParseSignatureHeader(RenderAll(ps))
  {
    var all := ps + [extra];
    assert all[..|all| - 1] == ps;
    WritableSnoc(ps, extra);
    SignatureHeaderRoundTrip(ps);
    SignatureHeaderRoundTrip(all);
    InterpretUnknown(EMPTY_HEADER, ps, extra);
  }

  /** Repeating a name that the list already stored is refused with a
      duplicate-parameter error, whether or not the name is recognised. */
  lemma DuplicateRefused(ps: seq<Parameter>, extra: Parameter)
    requires |ps| > 0 && AllWritable(ps) && Writable(extra)
    requires ParseSignatureHeader(RenderAll(ps)).Success?
    requires extra.name in Names(ps) && |extra.value| > 0
    ensures ParseSignatureHeader(RenderAll(ps + [extra])) == Failure(DuplicateParam(extra.name))
  {
    var all := ps + [extra];
    assert all[..|all| - 1] == ps;
    WritableSnoc(ps, extra);
    SignatureHeaderRoundTrip(ps);
    SignatureHeaderRoundTrip(all);
    InterpretDuplicate(EMPTY_HEADER, ps, extra);
  }

  lemma InterpretDuplicate(base: ParsedHeader, ps: seq<Parameter>, extra: Parameter)
    requires Interpret(base, ps).Success?
    requires extra.name in Names(ps) && |extra.value| > 0
    ensures Interpret(base, ps + [extra]) == Failure(DuplicateParam(extra.name))
  {
    var all := ps + [extra];
    assert all[..|all| - 1] == ps;
    assert all[|all| - 1] == extra;
  }

  lemma WritableSnoc(ps: seq<Parameter>, extra: Parameter)
    requires AllWritable(ps) && Writable(extra)
    ensures AllWritable(ps + [extra])
  {
    var all := ps + [extra];
    forall i | 0 <= i < |all|
      ensures Writable(all[i])
    {
      if i < |ps| {
        assert all[i] == ps[i];
      }
    }
  }
}
