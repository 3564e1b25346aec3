/** The `Digest` header grammar (in the style of RFC 3230), described without
    the state machine: `NAME=value`, where NAME is letters, digits and `-`,
    and the value is every byte after the first `=`, taken verbatim. */
module DigestGrammar {
  import opened Results
  import opened Bytes
  import opened Records
  import opened Parser

  /** Length of the longest prefix made of algorithm-name bytes. */
  function NamePrefixLength(s: seq<byte>): (n: nat)
    ensures n <= |s|
    ensures AllAlgorithmBytes(s[..n])
    ensures n < |s| ==> !IsAlgorithmByte(s[n])
  {
    if |s| == 0 || !IsAlgorithmByte(s[0]) then 0
    else
      var n := 1 + NamePrefixLength(s[1..]);
      assert forall i :: 1 <= i < n ==> s[..n][i] == s[1..][..n - 1][i - 1];
      n
  }

  /** What a `Digest` header means, or the error it is refused with. */
  function DigestMeaning(s: seq<byte>): Result<ParsedDigestHeader, ParseError> {
    if |s| == 0 then Failure(EmptyDigestHeader)
    else
      var n := NamePrefixLength(s);
      if n == |s| then Failure(ExpectedDigestValue)
      else if s[n] != EQUAL then Failure(UnsupportedSymbolInAlgorithm(s[n]))
      else if n + 1 == |s| then Failure(EmptyDigestValue)
      else Success(ParsedDigestHeader(ToUpperAll(s[..n]), s[n + 1..]))
  }

  /** In the `stringRawValue` state every remaining byte joins the value. */
  lemma {:induction false} RawValuePhase(s: seq<byte>, p: Parser)
    requires p.flag == StringRawValue
    ensures RunDigest(s, p) == Success(p.(value := p.value + s))
    decreases |s|
  {
    if |s| == 0 {
      assert p.value + s == p.value;
    } else {
      RawValuePhase(s[1..], p.(value := p.value + [s[0]]));
      assert p.value + [s[0]] + s[1..] == p.value + s;
    }
  }

  /** In the `algorithm` state the name bytes accumulate up to the first other
      byte, which must be `=`. */
  lemma {:induction false} NamePhase(s: seq<byte>, p: Parser)
    requires p.flag == Algorithm
    ensures var n := NamePrefixLength(s);
            RunDigest(s, p) ==
              if n == |s| then Success(p.(key := p.key + s))
              else if s[n] == EQUAL then
                RunDigest(s[n + 1..], p.(key := p.key + s[..n], flag := StringRawValue))
              else Failure(UnsupportedSymbolInAlgorithm(s[n]))
    decreases |s|
  {
    if |s| == 0 {
      assert p.key + s == p.key;
    } else if IsAlgorithmByte(s[0]) {
      var p' := p.(key := p.key + [s[0]]);
      NamePhase(s[1..], p');
      var n := NamePrefixLength(s);
      assert NamePrefixLength(s[1..]) == n - 1;
      assert p.key + [s[0]] + s[1..] == p.key + s;
      assert p.key + [s[0]] + s[1..][..n - 1] == p.key + s[..n];
      if n < |s| {
        assert s[1..][n - 1 + 1..] == s[n + 1..];
      }
    } else {
      assert s[..0] == [];
      assert p.key + [] == p.key;
    }
  }

  /** The state machine parses a `Digest` header exactly as the grammar says. */
  lemma ParseDigestMeaning(s: seq<byte>)
    ensures ParseDigest(DIGEST_START, s) == DigestMeaning(s)
  {
    if |s| > 0 {
      var n := NamePrefixLength(s);
      NamePhase(s, DIGEST_START);
      assert DIGEST_START.key + s[..n] == s[..n];
      if n < |s| && s[n] == EQUAL {
        var p := DIGEST_START.(key := s[..n], flag := StringRawValue);
        RawValuePhase(s[n + 1..], p);
        assert p.value + s[n + 1..] == s[n + 1..];
      }
    }
  }

  /** Round trip: a header written as `NAME=value` for a legal name and a
      non-empty value parses back to the upper-cased name and the value. */
  lemma DigestRoundTrip(name: seq<byte>, value: seq<byte>)
    requires AllAlgorithmBytes(name)
    requires |value| > 0
    ensures ParseDigest(DIGEST_START, name + [EQUAL] + value) ==
              Success(ParsedDigestHeader(ToUpperAll(name), value))
  {
    var s := name + [EQUAL] + value;
    ParseDigestMeaning(s);
    var n := NamePrefixLength(s);
    assert s[|name|] == EQUAL;
    assert forall i :: 0 <= i < |name| ==> s[i] == name[i];
    assert s[..|name|] == name;
    assert s[|name| + 1..] == value;
  }
}
