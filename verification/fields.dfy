/** Go's `strings.Fields`, which splits the quoted value of the `headers`
    parameter into header names. Fields are separated by runs of Unicode white
    space (`unicode.IsSpace`), read as UTF-8. */
module Words {
  import opened Bytes

  /** ASCII white space: tab, line feed, vertical tab, form feed, carriage return, space. */
  predicate IsAsciiSpace(c: byte) {
    ('\U{09}' <= c <= '\U{0D}') || c == ' '
  }

  /** The UTF-8 encodings of the white-space runes above U+00FF:
      U+1680, U+2000..U+200A, U+2028, U+2029, U+202F, U+205F and U+3000. */
  predicate IsWideSpace(a: byte, b: byte, c: byte) {
    || (a == '\U{E1}' && b == '\U{9A}' && c == '\U{80}')
    || (a == '\U{E2}' && b == '\U{80}' && ('\U{80}' <= c <= '\U{8A}' || c == '\U{A8}' || c == '\U{A9}' || c == '\U{AF}'))
    || (a == '\U{E2}' && b == '\U{81}' && c == '\U{9F}')
    || (a == '\U{E3}' && b == '\U{80}' && c == '\U{80}')
  }

  /** The number of bytes of the white-space rune `s` starts with, or 0 when it
      does not start with one. Every multi-byte white-space rune starts with a
      UTF-8 lead byte, which a decoder never takes as part of an earlier rune,
      so looking at the bytes in place agrees with decoding from the left. */
  function SpaceWidth(s: seq<byte>): (w: nat)
    ensures w <= |s| && w <= 3
    ensures w == 1 <==> |s| > 0 && IsAsciiSpace(s[0])
    ensures w > 1 ==> !IsAscii(s[0]) && forall i :: 1 <= i < w ==> !IsAscii(s[i])
  {
    if |s| == 0 then 0
    else if IsAsciiSpace(s[0]) then 1
    else if |s| >= 2 && s[0] == '\U{C2}' && (s[1] == '\U{85}' || s[1] == '\U{A0}') then 2
    else if |s| >= 3 && IsWideSpace(s[0], s[1], s[2]) then 3
    else 0
  }

  /** `s` holds no white-space rune. */
  predicate NoSpace(s: seq<byte>) {
    forall i :: 0 <= i < |s| ==> SpaceWidth(s[i..]) == 0
  }

  /** What `strings.Fields` can return as one element. */
  predicate IsField(f: seq<byte>) {
    |f| > 0 && NoSpace(f)
  }

  /** `s` consists of white-space runes only. */
  predicate Blank(s: seq<byte>)
    decreases |s|
  {
    |s| == 0 || (SpaceWidth(s) > 0 && Blank(s[SpaceWidth(s)..]))
  }

  /** Length of the longest prefix of `s` in which no white-space rune starts. */
  function WordLength(s: seq<byte>): (n: nat)
    ensures n <= |s|
    ensures forall i :: 0 <= i < n ==> SpaceWidth(s[i..]) == 0
    ensures n < |s| ==> SpaceWidth(s[n..]) > 0
  {
    if |s| == 0 || SpaceWidth(s) > 0 then 0
    else
      var n := 1 + WordLength(s[1..]);
      assert forall i :: 1 <= i < n ==> s[i..] == s[1..][i - 1..];
      n
  }

  /** A white-space rune at the start of a prefix is also one at the start of the whole. */
  lemma SpaceWidthPrefix(s: seq<byte>, n: nat)
    requires n <= |s|
    ensures SpaceWidth(s[..n]) > 0 ==> SpaceWidth(s) == SpaceWidth(s[..n])
  {
  }

  lemma PrefixNoSpace(s: seq<byte>, n: nat)
    requires n <= |s|
    requires forall i :: 0 <= i < n ==> SpaceWidth(s[i..]) == 0
    ensures NoSpace(s[..n])
  {
    forall i | 0 <= i < n
      ensures SpaceWidth(s[..n][i..]) == 0
    {
      assert s[..n][i..] == s[i..][..n - i];
      SpaceWidthPrefix(s[i..], n - i);
    }
  }

  /** `strings.Fields`: the maximal runs of bytes between white-space runes. */
  function Fields(s: seq<byte>): (fs: seq<seq<byte>>)
    decreases |s|
    ensures forall i :: 0 <= i < |fs| ==> IsField(fs[i])
  {
    if |s| == 0 then []
    else if SpaceWidth(s) > 0 then Fields(s[SpaceWidth(s)..])
    else
      var n := WordLength(s);
      PrefixNoSpace(s, n);
      [s[..n]] + Fields(s[n..])
  }

  /** `strings.Fields` returns no field exactly on blank input. */
  lemma {:induction false} FieldsEmptyIffBlank(s: seq<byte>)
    decreases |s|
    ensures Fields(s) == [] <==> Blank(s)
  {
    if |s| > 0 && SpaceWidth(s) > 0 {
      FieldsEmptyIffBlank(s[SpaceWidth(s)..]);
    }
  }

  /** Fields joined by single spaces. */
  function JoinSpaces(fs: seq<seq<byte>>): seq<byte>
  {
    if |fs| == 0 then []
    else if |fs| == 1 then fs[0]
    else fs[0] + [SPACE] + JoinSpaces(fs[1..])
  }

  /** Appending bytes that start with an ASCII byte cannot complete a
      white-space rune that a non-empty prefix lacked. */
  lemma SpaceWidthExtend(a: seq<byte>, t: seq<byte>)
    requires |a| > 0 && SpaceWidth(a) == 0
    requires |t| == 0 || IsAscii(t[0])
    ensures SpaceWidth(a + t) == 0
  {
    if |a| < 3 && |t| > 0 {
      assert (a + t)[|a|] == t[0];
    }
  }

  lemma NoSpaceExtend(f: seq<byte>, t: seq<byte>)
    requires NoSpace(f)
    requires |t| == 0 || IsAscii(t[0])
    ensures forall i :: 0 <= i < |f| ==> SpaceWidth((f + t)[i..]) == 0
  {
    forall i | 0 <= i < |f|
      ensures SpaceWidth((f + t)[i..]) == 0
    {
      assert (f + t)[i..] == f[i..] + t;
      SpaceWidthExtend(f[i..], t);
    }
  }

  lemma {:induction false} WordLengthOfField(f: seq<byte>, t: seq<byte>)
    requires NoSpace(f)
    requires |t| == 0 || (IsAscii(t[0]) && SpaceWidth(t) > 0)
    ensures WordLength(f + t) == |f|
    decreases |f|
  {
    NoSpaceExtend(f, t);
    if |f| == 0 {
      assert f + t == t;
    } else {
      assert (f + t)[0..] == f + t;
      assert (f + t)[1..] == f[1..] + t;
      assert NoSpace(f[1..]) by {
        forall i | 0 <= i < |f[1..]|
          ensures SpaceWidth(f[1..][i..]) == 0
        {
          assert f[1..][i..] == f[i + 1..];
        }
      }
      WordLengthOfField(f[1..], t);
    }
  }

  /** A field followed by a space and more text splits into that field and
      the fields of the text. */
  lemma FieldsOfWordThenSpace(f: seq<byte>, rest: seq<byte>)
    requires IsField(f)
    ensures Fields(f + [SPACE] + rest) == [f] + Fields(rest)
  {
    var t := [SPACE] + rest;
    var s := f + t;
    assert f + [SPACE] + rest == s;
    WordLengthOfField(f, t);
    NoSpaceExtend(f, t);
    assert s[0..] == s;
    assert s[..|f|] == f;
    assert s[|f|..] == t;
    assert t[1..] == rest;
  }

  /** Round trip: splitting fields joined by single spaces gives the fields back. */
  lemma {:induction false} FieldsOfJoin(fs: seq<seq<byte>>)
    requires forall i :: 0 <= i < |fs| ==> IsField(fs[i])
    ensures Fields(JoinSpaces(fs)) == fs
    decreases |fs|
  {
    if |fs| == 1 {
      var f := fs[0];
      WordLengthOfField(f, []);
      assert f + [] == f;
      assert f[..|f|] == f;
    } else if |fs| > 1 {
      FieldsOfWordThenSpace(fs[0], JoinSpaces(fs[1..]));
      FieldsOfJoin(fs[1..]);
      assert fs == [fs[0]] + fs[1..];
    }
  }
}
