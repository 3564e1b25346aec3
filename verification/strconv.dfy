/** The part of Go's `strconv` the parser relies on: `ParseInt(s, 10, 32)`,
    which `intToTime` uses to read `created` and `expires`, and its inverse
    `FormatInt(n, 10)`. */
module Strconv {
  import opened Results
  import opened Bytes

  /** The two failures `strconv.ParseInt` reports: `ErrSyntax` and `ErrRange`. */
  datatype NumError = ErrSyntax | ErrRange

  const MAX_UINT32: int := 0xFFFF_FFFF
  const MAX_INT32: int := 0x7FFF_FFFF
  const MIN_INT32: int := -0x8000_0000

  function DigitValue(c: byte): (d: nat)
    requires IsDigit(c)
    ensures d < 10
  {
    c as int - '0' as int
  }

  function DigitOf(d: nat): (c: byte)
    requires d < 10
    ensures IsDigit(c) && DigitValue(c) == d
  {
    (d + '0' as int) as char
  }

  /** The number a string of decimal digits denotes (most significant first). */
  function DecimalValue(s: seq<byte>): nat
    requires AllDigits(s)
  {
    if |s| == 0 then 0
    else 10 * DecimalValue(s[..|s| - 1]) + DigitValue(s[|s| - 1])
  }

  /** The digit loop of `strconv.ParseUint(s, 10, 32)`: bytes are read from
      left to right and the first byte that is not a digit, or the first digit
      that lifts the value above 2^32-1, decides the error. */
  function AccumulateUint32(s: seq<byte>): (r: Result<nat, NumError>)
    ensures r.Success? ==> AllDigits(s) && r.value == DecimalValue(s) <= MAX_UINT32
  {
    if |s| == 0 then Success(0)
    else
      var n :- AccumulateUint32(s[..|s| - 1]);
      var c := s[|s| - 1];
      if !IsDigit(c) then Failure(ErrSyntax)
      else if 10 * n + DigitValue(c) > MAX_UINT32 then Failure(ErrRange)
      else Success(10 * n + DigitValue(c))
  }

  /** `strconv.ParseUint(s, 10, 32)`: the empty string is a syntax error. */
  function ParseUint32(s: seq<byte>): (r: Result<nat, NumError>)
    ensures r.Success? ==> |s| > 0 && AllDigits(s) && r.value == DecimalValue(s) <= MAX_UINT32
  {
    if |s| == 0 then Failure(ErrSyntax) else AccumulateUint32(s)
  }

  /** `strconv.ParseInt(s, 10, 32)`: an optional `+` or `-`, then an unsigned
      decimal whose value must fit in a signed 32-bit integer. */
  function ParseInt32(s: seq<byte>): (r: Result<int, NumError>)
    ensures r.Success? ==> MIN_INT32 <= r.value <= MAX_INT32
    ensures |s| == 0 ==> r == Failure(ErrSyntax)
  {
    if |s| == 0 then Failure(ErrSyntax)
    else
      var neg := s[0] == '-';
      var body := if s[0] == '+' || s[0] == '-' then s[1..] else s;
      match ParseUint32(body)
      case Failure(ErrSyntax) => Failure(ErrSyntax)
      case Failure(ErrRange) => Failure(ErrRange)
      case Success(un) =>
        if !neg && un >= 0x8000_0000 then Failure(ErrRange)
        else if neg && un > 0x8000_0000 then Failure(ErrRange)
        else if neg then Success(-(un as int))
        else Success(un as int)
  }

  /** Decimal digits of a natural number, without leading zeros. */
  function FormatNat(n: nat): (s: seq<byte>)
    ensures |s| > 0 && AllDigits(s)
  {
    if n < 10 then [DigitOf(n)] else FormatNat(n / 10) + [DigitOf(n % 10)]
  }

  /** `strconv.FormatInt(n, 10)`. */
  function FormatInt(n: int): (s: seq<byte>)
    ensures |s| > 0
  {
    if n < 0 then ['-'] + FormatNat(-n) else FormatNat(n)
  }

  /** Reading back the digits `FormatNat` writes gives the number again. */
  lemma {:induction false} DecimalValueOfFormatNat(n: nat)
    ensures DecimalValue(FormatNat(n)) == n
  {
    var s := FormatNat(n);
    if n >= 10 {
      DecimalValueOfFormatNat(n / 10);
      assert s[..|s| - 1] == FormatNat(n / 10);
    }
  }

  /** On a digit string, the digit loop fails exactly when the value does not
      fit in 32 bits, and then with a range error. */
  lemma {:induction false} AccumulateDigits(s: seq<byte>)
    requires AllDigits(s)
    ensures AccumulateUint32(s) ==
              if DecimalValue(s) <= MAX_UINT32 then Success(DecimalValue(s)) else Failure(ErrRange)
  {
    if |s| > 0 {
      var pre := s[..|s| - 1];
      AccumulateDigits(pre);
    }
  }

  /** `ParseInt32` on an unsigned digit string accepts exactly the values up to
      2^31-1 and returns the value the digits denote. */
  lemma ParseInt32Digits(s: seq<byte>)
    requires |s| > 0 && AllDigits(s)
    ensures ParseInt32(s) ==
              if DecimalValue(s) <= MAX_INT32 then Success(DecimalValue(s) as int) else Failure(ErrRange)
  {
    AccumulateDigits(s);
  }

  /** Round trip: every signed 32-bit value survives `FormatInt` then `ParseInt32`. */
  lemma ParseFormatRoundTrip(n: int)
    requires MIN_INT32 <= n <= MAX_INT32
    ensures ParseInt32(FormatInt(n)) == Success(n)
  {
    var m: nat := if n < 0 then -n else n;
    var digits := FormatNat(m);
    DecimalValueOfFormatNat(m);
    AccumulateDigits(digits);
    assert ParseUint32(digits) == Success(m);
    if n < 0 {
      var s := ['-'] + digits;
      assert s[0] == '-' && s[1..] == digits;
      assert FormatInt(n) == s;
    } else {
      assert digits[0] != '-' && digits[0] != '+';
      assert FormatInt(n) == digits;
    }
  }
}
