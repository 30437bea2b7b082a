/** Decimal text of integers: `(*big.Int).String`, `SetString` in base ten, and `strconv.Itoa`. */
module Decimal {
  import opened Common
  import opened Radix
  import opened Text

  predicate IsDigit(c: char) {
    '0' <= c <= '9'
  }

  predicate AllDecimal(s: string) {
    forall i :: 0 <= i < |s| ==> IsDigit(s[i])
  }

  function DigitsOf(s: string): (ds: seq<int>)
    requires AllDecimal(s)
    ensures |ds| == |s| && AllDigits(10, ds)
  {
    seq(|s|, i requires 0 <= i < |s| => s[i] as int - '0' as int)
  }

  function DigitText(ds: seq<int>): (s: string)
    requires AllDigits(10, ds)
    ensures AllDecimal(s) && DigitsOf(s) == ds
  {
    seq(|ds|, i requires 0 <= i < |ds| => ('0' as int + ds[i]) as char)
  }

  /** `(*big.Int).String`. */
  function DecimalText(n: nat): string {
    if n == 0 then "0" else DigitText(Minimal(10, n))
  }

  predicate IsSigned(s: string) {
    |s| > 0 && (s[0] == '-' || s[0] == '+')
  }

  /** `(*big.Int).SetString` in base ten: an optional sign, then digits only. */
  function ParseDecimal(s: string): Option<int> {
    var digits := if IsSigned(s) then s[1..] else s;
    if |digits| == 0 || !AllDecimal(digits) then None else
      var n := Value(10, DigitsOf(digits));
      Some(if s[0] == '-' then -n else n)
  }

  lemma DigitsAreUnsigned(s: string)
    requires |s| > 0 && AllDecimal(s)
    ensures !IsSigned(s) && s[0] != '-'
  {
    assert IsDigit(s[0]);
  }

  lemma ParseOfDigits(s: string)
    requires |s| > 0 && AllDecimal(s)
    ensures ParseDecimal(s) == Some(Value(10, DigitsOf(s)))
  {
    DigitsAreUnsigned(s);
  }

  lemma DecimalDigits(n: nat)
    ensures |DecimalText(n)| > 0 && AllDecimal(DecimalText(n)) && Value(10, DigitsOf(DecimalText(n))) == n
  {
    if n > 0 {
      ValueOfMinimal(10, n);
    } else {
      assert DigitsOf(DecimalText(n)) == [0] && [0][..0] == [];
    }
  }

  /** Printing an amount and parsing the trimmed text gives the amount back. */
  lemma ParsePrinted(n: nat)
    ensures ParseDecimal(TrimSpace(DecimalText(n))) == Some(n)
  {
    DecimalDigits(n);
    NothingToTrim(DecimalText(n));
    ParseOfDigits(DecimalText(n));
  }

  /** Decimal text of an integer. */
  function IntText(n: int): string {
    if n < 0 then "-" + DecimalText(-n) else DecimalText(n)
  }

  lemma ParseSigned(digits: string)
    requires |digits| > 0 && AllDecimal(digits)
    ensures ParseDecimal("-" + digits) == Some(-Value(10, DigitsOf(digits)))
  {
    assert ("-" + digits)[1..] == digits;
  }

  lemma ParseIntText(n: int)
    ensures ParseDecimal(IntText(n)) == Some(n)
  {
    var digits := DecimalText(if n < 0 then -n else n);
    DecimalDigits(if n < 0 then -n else n);
    if n < 0 {
      ParseSigned(digits);
    } else {
      ParseOfDigits(digits);
    }
  }

  /** Accepted is one optional sign followed by decimal digits, and nothing else. */
  lemma ParsedParts(s: string) returns (sign: string, digits: string)
    requires ParseDecimal(s).Some?
    ensures s == sign + digits && sign in {"", "-", "+"} && |digits| > 0 && AllDecimal(digits)
    ensures ParseDecimal(s).value == if sign == "-" then -Value(10, DigitsOf(digits)) else Value(10, DigitsOf(digits))
  {
    if IsSigned(s) { sign, digits := [s[0]], s[1..]; } else { sign, digits := "", s; }
  }

  lemma PartsParse(sign: string, digits: string)
    requires sign in {"", "-", "+"} && |digits| > 0 && AllDecimal(digits)
    ensures ParseDecimal(sign + digits)
         == Some(if sign == "-" then -Value(10, DigitsOf(digits)) else Value(10, DigitsOf(digits)))
  {
    if sign == "" {
      assert sign + digits == digits;
      ParseOfDigits(digits);
    } else {
      assert (sign + digits)[0] == sign[0] && (sign + digits)[1..] == digits;
    }
  }

  /** Different integers have different texts. */
  lemma IntTextInjective(m: int, n: int)
    requires IntText(m) == IntText(n)
    ensures m == n
  {
    ParseIntText(m);
    ParseIntText(n);
  }

  /** How an integer text reads back from an integral numeric column: without a plus sign or leading zeros. */
  function ReadBack(text: string): string {
    match ParseDecimal(text)
    case Some(n) => IntText(n)
    case None => text
  }

  lemma ReadBackTwice(text: string)
    ensures ReadBack(ReadBack(text)) == ReadBack(text)
  {
    if ParseDecimal(text).Some? { ParseIntText(ParseDecimal(text).value); }
  }

  /** Printed amounts read back as they are. */
  lemma PrintedReadsBack(n: nat)
    ensures TrimSpace(DecimalText(n)) == DecimalText(n) && ReadBack(DecimalText(n)) == DecimalText(n)
  {
    DecimalDigits(n);
    NothingToTrim(DecimalText(n));
    ParsePrinted(n);
  }
}
