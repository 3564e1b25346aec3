/** The leading keyword of an `Authorization` header, described without the
    state machine: the keyword is made of the letters before the first space
    that follows a letter, every other byte there being ignored. */
module AuthorizationKeyword {
  import opened Results
  import opened Bytes
  import opened Records
  import opened Parser

  predicate HasLetter(s: seq<byte>) {
    exists i :: 0 <= i < |s| && IsLetter(s[i])
  }

  lemma {:induction false} LettersEmptyIff(s: seq<byte>)
    ensures |Letters(s)| == 0 <==> !HasLetter(s)
    decreases |s|
  {
    if |s| > 0 {
      var pre := s[..|s| - 1];
      LettersEmptyIff(pre);
      if HasLetter(pre) {
        var i :| 0 <= i < |pre| && IsLetter(pre[i]);
        assert s[i] == pre[i];
      }
      if HasLetter(s) && !IsLetter(s[|s| - 1]) {
        var i :| 0 <= i < |s| && IsLetter(s[i]);
        assert pre[i] == s[i];
      }
    }
  }

  /** Where the keyword ends: the first space preceded by some letter, or the
      end of the header when there is none. */
  function KeywordEnd(s: seq<byte>): (e: nat)
    ensures e <= |s|
    ensures e < |s| ==> s[e] == SPACE && HasLetter(s[..e])
    ensures forall i :: 0 <= i < e ==> !(s[i] == SPACE && HasLetter(s[..i]))
  {
    KeywordEndFrom(s, 0)
  }

  function KeywordEndFrom(s: seq<byte>, i: nat): (e: nat)
    requires i <= |s|
    ensures i <= e <= |s|
    ensures e < |s| ==> s[e] == SPACE && HasLetter(s[..e])
    ensures forall j :: i <= j < e ==> !(s[j] == SPACE && HasLetter(s[..j]))
    decreases |s| - i
  {
    if i == |s| then i
    else if s[i] == SPACE && HasLetter(s[..i]) then i
    else KeywordEndFrom(s, i + 1)
  }

  /** The keyword the header spells. */
  function KeywordOf(s: seq<byte>): seq<byte> {
    Letters(s[..KeywordEnd(s)])
  }

  /** Up to the keyword's end the machine stays in the keyword state and its
      buffer holds the letters read so far. */
  lemma {:induction false} KeywordPhase(s: seq<byte>, i: nat)
    requires i <= KeywordEnd(s)
    ensures RunSignature(s[..i], AUTHORIZATION_START) ==
              Success(AUTHORIZATION_START.(keyword := Letters(s[..i])))
  {
    if i > 0 {
      var j := i - 1;
      KeywordPhase(s, j);
      assert s[..i] == s[..j] + [s[j]];
      RunSignatureConcat(s[..j], [s[j]], AUTHORIZATION_START);
      assert s[..i][..j] == s[..j];
      LettersEmptyIff(s[..j]);
      var q := AUTHORIZATION_START.(keyword := Letters(s[..j]));
      assert RunSignature([s[j]], q) == StepSignature(q, s[j]);
    }
  }

  /** An `Authorization` parse succeeds only if the keyword is `Signature`,
      and a header whose keyword is anything else is refused with
      "must start from Signature keyword". */
  lemma KeywordDecides(s: seq<byte>)
    requires |s| > 0
    ensures ParseSignature(AUTHORIZATION_START, s).Success? ==> KeywordOf(s) == KEYWORD
    ensures KeywordOf(s) != KEYWORD ==> ParseSignature(AUTHORIZATION_START, s) == Failure(InvalidKeyword)
  {
    var e := KeywordEnd(s);
    KeywordPhase(s, e);
    var q := AUTHORIZATION_START.(keyword := Letters(s[..e]));
    if e == |s| {
      assert s[..e] == s;
    } else {
      assert s == s[..e] + s[e..];
      RunSignatureConcat(s[..e], s[e..], AUTHORIZATION_START);
      LettersEmptyIff(s[..e]);
      assert s[e..][0] == SPACE;
      if KeywordOf(s) != KEYWORD {
        assert StepSignature(q, SPACE) == Failure(InvalidKeyword);
        assert RunSignature(s[e..], q) == Failure(InvalidKeyword);
      }
    }
  }

  /** A header with no space after a letter is all keyword: it is accepted,
      with nothing but the keyword and the `(created)` default, exactly when
      its letters spell `Signature`. */
  lemma KeywordOnly(s: seq<byte>)
    requires |s| > 0 && KeywordEnd(s) == |s|
    ensures ParseSignature(AUTHORIZATION_START, s) ==
              if Letters(s) == KEYWORD
              then Success(EMPTY_HEADER.(keyword := KEYWORD, headers := [CREATED_PSEUDO_HEADER]))
              else Failure(InvalidKeyword)
  {
    KeywordPhase(s, |s|);
    assert s[..|s|] == s;
  }

  lemma {:induction false} LettersOfLetters(s: seq<byte>)
    requires AllLetters(s)
    ensures Letters(s) == s
  {
    if |s| > 0 {
      LettersOfLetters(s[..|s| - 1]);
    }
  }

  /** The keyword state skips every byte that is neither a letter nor a
      space, so `Signature,` is read as the bare keyword and accepted. */
  lemma KeywordSkipsComma()
    ensures ParseSignature(AUTHORIZATION_START, KEYWORD + [DIV]) ==
              Success(EMPTY_HEADER.(keyword := KEYWORD, headers := [CREATED_PSEUDO_HEADER]))
  {
    var s := KEYWORD + [DIV];
    LettersOfLetters(KEYWORD);
    assert s[..|s| - 1] == KEYWORD;
    assert Letters(s) == KEYWORD;
    assert forall i :: 0 <= i < |s| ==> s[i] != SPACE;
    KeywordOnly(s);
  }
}
