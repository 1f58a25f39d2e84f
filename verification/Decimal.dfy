/**
 * Decimal text as Go's `strconv` reads and writes it in base 10: `FormatUint`,
 * `ParseUint`, `FormatInt` and `ParseInt`.
 */
module Decimal {
  import opened Results

  datatype ParseError = Syntax | Range

  const MAX_INT64: nat := 0x7FFF_FFFF_FFFF_FFFF

  predicate IsDigit(c: char) {
    '0' <= c <= '9'
  }

  predicate AllDigits(s: string) {
    forall i :: 0 <= i < |s| ==> IsDigit(s[i])
  }

  function DigitChar(d: nat): (c: char)
    requires d < 10
    ensures IsDigit(c) && DigitValue(c) == d
  {
    '0' + d as char
  }

  function DigitValue(c: char): (d: nat)
    requires IsDigit(c)
  {
    (c - '0') as nat
  }

  /** `strconv.FormatUint(n, 10)`. */
  function FormatUint(n: nat): string {
    if n < 10 then [DigitChar(n)] else FormatUint(n / 10) + [DigitChar(n % 10)]
  }

  /** The number a run of digits denotes. */
  function DigitsValue(s: string): nat
    requires AllDigits(s)
  {
    if s == [] then 0 else 10 * DigitsValue(s[..|s| - 1]) + DigitValue(s[|s| - 1])
  }

  /** `strconv.ParseUint(s, 10, 64)`: no sign, no underscore, leading zeros allowed. */
  function ParseUint(s: string): (r: Result<Uint64, ParseError>)
    ensures r.Ok? ==> AllDigits(s) && r.value == DigitsValue(s)
  {
    if s == [] || !AllDigits(s) then Err(Syntax)
    else if DigitsValue(s) >= TWO_TO_THE_64 then Err(Range)
    else Ok(DigitsValue(s))
  }

  /** `strconv.FormatInt(i, 10)`. */
  function FormatInt(i: int): string {
    if i < 0 then "-" + FormatUint(-i) else FormatUint(i)
  }

  /** `strconv.ParseInt(s, 10, 64)`: one optional sign, then `ParseUint`, then the int64 range. */
  function ParseInt(s: string): Result<int, ParseError> {
    if s == [] then Err(Syntax)
    else
      var negative := s[0] == '-';
      var digits := if negative || s[0] == '+' then s[1..] else s;
      match ParseUint(digits)
      case Err(e) => Err(e)
      case Ok(n) =>
        if !negative && n > MAX_INT64 then Err(Range)
        else if negative && n > MAX_INT64 + 1 then Err(Range)
        else
          var i: int := if negative then -(n as int) else n;
          Ok(i)
  }

  /** No superfluous leading zero. */
  predicate CanonicalDigits(s: string) {
    s != [] && AllDigits(s) && (|s| > 1 ==> s[0] != '0')
  }

  /** No plus sign, no superfluous leading zero, no negative zero. */
  predicate CanonicalInt(s: string) {
    CanonicalDigits(s) || (s != [] && s[0] == '-' && CanonicalDigits(s[1..]) && s[1] != '0')
  }

  lemma {:induction false} FormatUintIsCanonical(n: nat)
    ensures CanonicalDigits(FormatUint(n))
    ensures FormatUint(n)[0] == '0' <==> n == 0
  {
    if n >= 10 {
      FormatUintIsCanonical(n / 10);
    }
  }

  lemma {:induction false} DigitsValueOfFormat(n: nat)
    ensures AllDigits(FormatUint(n)) && DigitsValue(FormatUint(n)) == n
  {
    FormatUintIsCanonical(n);
    if n >= 10 {
      DigitsValueOfFormat(n / 10);
      assert FormatUint(n)[..|FormatUint(n)| - 1] == FormatUint(n / 10);
    }
  }

  lemma {:induction false} LeadingDigitIsValue(s: string)
    requires CanonicalDigits(s)
    ensures s[0] != '0' ==> DigitsValue(s) > 0
  {
    if |s| > 1 {
      LeadingDigitIsValue(s[..|s| - 1]);
    }
  }

  lemma {:induction false} FormatOfDigitsValue(s: string)
    requires CanonicalDigits(s)
    ensures FormatUint(DigitsValue(s)) == s
  {
    var front := s[..|s| - 1];
    if |s| == 1 {
      assert DigitsValue(front) == 0;
    } else {
      FormatOfDigitsValue(front);
      LeadingDigitIsValue(front);
    }
  }

  /** Printing then parsing is the identity on the whole uint64 range. */
  lemma ParseUintOfFormat(n: Uint64)
    ensures ParseUint(FormatUint(n)) == Ok(n)
  {
    FormatUintIsCanonical(n);
    DigitsValueOfFormat(n);
  }

  /** Parsing then printing returns the text exactly when the text was canonical. */
  lemma FormatOfParseUint(s: string)
    requires ParseUint(s).Ok?
    ensures FormatUint(ParseUint(s).value) == s <==> CanonicalDigits(s)
  {
    FormatUintIsCanonical(DigitsValue(s));
    if CanonicalDigits(s) {
      FormatOfDigitsValue(s);
    }
  }

  lemma FormatOfParseInt(s: string)
    requires ParseInt(s).Ok?
    ensures FormatInt(ParseInt(s).value) == s <==> CanonicalInt(s)
  {
    var i := ParseInt(s).value;
    FormatUintIsCanonical(if i < 0 then -i else i);
    if s[0] == '-' {
      FormatOfParseUint(s[1..]);
      assert s == "-" + s[1..];
      if CanonicalInt(s) {
        LeadingDigitIsValue(s[1..]);
      }
      if FormatInt(i) == s {
        assert FormatUint(-i) == s[1..];
      }
    } else if s[0] == '+' {
    } else {
      FormatOfParseUint(s);
    }
  }
}
