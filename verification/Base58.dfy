/** Base58 and Base58Check. */
module Base58 {
  import opened Common
  import opened Radix

  const DIGITS_AND_UPPER: string := "123456789ABCDEFGHJKLMNPQRSTUVWXYZ"
  const LOWER: string := "abcdefghijkmnopqrstuvwxyz"
  const ALPHABET: string := DIGITS_AND_UPPER + LOWER

  datatype Base58Error = InvalidCharacter | PayloadTooShort | ChecksumMismatch

  /** How many leading elements equal `x`. */
  function Leading<T(==)>(s: seq<T>, x: T): (n: nat)
    ensures n <= |s| && (forall i :: 0 <= i < n ==> s[i] == x) && (n < |s| ==> s[n] != x)
  {
    if |s| == 0 || s[0] != x then 0 else 1 + Leading(s[1..], x)
  }

  /** What the codec needs of its alphabet: 58 different visible characters, '1' first. */
  predicate IsAlphabet(a: string) {
    && |a| == 58 && a[0] == '1'
    && (forall i, j :: 0 <= i < j < |a| ==> a[i] != a[j])
    && (forall i :: 0 <= i < |a| ==> '1' <= a[i] <= 'z')
  }

  type Alphabet = a: string | IsAlphabet(a) ghost witness (AlphabetDistinct(); ALPHABET)

  predicate ValidChars(a: Alphabet, input: string) {
    forall i :: 0 <= i < |input| ==> input[i] in a
  }

  /** The position of a character in the alphabet. */
  function DigitOf(a: Alphabet, ch: char): (d: int)
    requires ch in a
    ensures 0 <= d < 58 && a[d] == ch
  {
    var d :| 0 <= d < |a| && a[d] == ch;
    d
  }

  function Digits(a: Alphabet, input: string): (ds: seq<int>)
    requires ValidChars(a, input)
    ensures |ds| == |input| && AllDigits(58, ds)
    ensures forall i :: 0 <= i < |ds| ==> a[ds[i]] == input[i]
  {
    if |input| == 0 then [] else Digits(a, input[..|input| - 1]) + [DigitOf(a, input[|input| - 1])]
  }

  function Chars(a: Alphabet, ds: seq<int>): (s: string)
    requires AllDigits(58, ds)
    ensures |s| == |ds| && forall i :: 0 <= i < |s| ==> s[i] == a[ds[i]]
  {
    seq(|ds|, i requires 0 <= i < |ds| => a[ds[i]])
  }

  function EncodeBase58(a: Alphabet, input: seq<Byte>): string {
    ValueBounds(256, input);
    Repeat('1', Leading<int>(input, 0)) + Chars(a, Minimal(58, Value(256, input)))
  }

  function DecodeBase58(a: Alphabet, input: string): Result<seq<Byte>, Base58Error> {
    if !ValidChars(a, input) then Err(InvalidCharacter) else
      ValueBounds(58, Digits(a, input));
      var bytes: seq<Byte> := Minimal(256, Value(58, Digits(a, input)));
      Ok(Repeat<int>(0, Leading(input, '1')) + bytes)
  }

  // ------------------------------------------------------------ the alphabet

  lemma UpperIncreases()
    ensures |DIGITS_AND_UPPER| == 33 && DIGITS_AND_UPPER[0] == '1' && DIGITS_AND_UPPER[32] == 'Z'
    ensures forall i :: 0 <= i < 32 ==> DIGITS_AND_UPPER[i] < DIGITS_AND_UPPER[i + 1]
  {
  }

  lemma LowerIncreases()
    ensures |LOWER| == 25 && LOWER[0] == 'a' && LOWER[24] == 'z'
    ensures forall i :: 0 <= i < 24 ==> LOWER[i] < LOWER[i + 1]
  {
  }

  lemma {:induction false} Increasing(s: string, i: int, j: int)
    requires 0 <= i < j < |s|
    requires forall k :: 0 <= k < |s| - 1 ==> s[k] < s[k + 1]
    ensures s[i] < s[j]
  {
    if i + 1 < j {
      Increasing(s, i, j - 1);
      assert s[j - 1] < s[j - 1 + 1];
    }
  }

  lemma JoinIncreases(u: string, l: string)
    requires |u| > 0 && |l| > 0 && u[|u| - 1] < l[0]
    requires forall k :: 0 <= k < |u| - 1 ==> u[k] < u[k + 1]
    requires forall k :: 0 <= k < |l| - 1 ==> l[k] < l[k + 1]
    ensures forall k :: 0 <= k < |u + l| - 1 ==> (u + l)[k] < (u + l)[k + 1]
  {
    var s := u + l;
    forall k | 0 <= k < |s| - 1
      ensures s[k] < s[k + 1]
    {
      if k < |u| - 1 {
        assert u[k] < u[k + 1];
      } else if k >= |u| {
        assert l[k - |u|] < l[k - |u| + 1];
      }
    }
  }

  /** No character of the program's alphabet occurs twice, and its zero digit is '1'. */
  lemma AlphabetDistinct()
    ensures IsAlphabet(ALPHABET)
  {
    UpperIncreases();
    LowerIncreases();
    DistinctWhenIncreasing(DIGITS_AND_UPPER, LOWER);
  }

  /** Base58 uses the ASCII digits and letters that cannot be mistaken for another. */
  predicate Legible(c: char) {
    ('0' <= c <= '9' || 'A' <= c <= 'Z' || 'a' <= c <= 'z') && c != '0' && c != 'O' && c != 'I' && c != 'l'
  }

  function PlaceOf(c: char): int {
    if c <= '9' then c as int - '1' as int
    else if c <= 'H' then 9 + (c as int - 'A' as int)
    else if c <= 'N' then 17 + (c as int - 'J' as int)
    else if c <= 'Z' then 22 + (c as int - 'P' as int)
    else if c <= 'k' then 33 + (c as int - 'a' as int)
    else 44 + (c as int - 'm' as int)
  }

  lemma UpperPlaces(i: int)
    requires 0 <= i < 33
    ensures |DIGITS_AND_UPPER| == 33 && Legible(DIGITS_AND_UPPER[i]) && PlaceOf(DIGITS_AND_UPPER[i]) == i
    ensures DIGITS_AND_UPPER[i] <= 'Z'
  {
  }

  lemma LowerPlaces(i: int)
    requires 0 <= i < 25
    ensures |LOWER| == 25 && Legible(LOWER[i]) && PlaceOf(LOWER[i]) == 33 + i && LOWER[i] >= 'a'
  {
  }

  lemma AlphabetPlaces(i: int)
    requires 0 <= i < 58
    ensures |ALPHABET| == 58 && Legible(ALPHABET[i]) && PlaceOf(ALPHABET[i]) == i
  {
    UpperPlaces(if i < 33 then i else 0);
    LowerPlaces(if i < 33 then 0 else i - 33);
  }

  /** The program's alphabet: exactly those characters, in ASCII order. */
  lemma AlphabetIsLegible(c: char)
    ensures c in ALPHABET <==> Legible(c)
    ensures Legible(c) ==> 0 <= PlaceOf(c) < |ALPHABET| && ALPHABET[PlaceOf(c)] == c
  {
    if Legible(c) {
      AlphabetPlaces(PlaceOf(c));
      SamePlace(c, ALPHABET[PlaceOf(c)]);
    } else if c in ALPHABET {
      AlphabetPlaces(0);
      var i :| 0 <= i < |ALPHABET| && ALPHABET[i] == c;
      AlphabetPlaces(i);
    }
  }

  lemma SamePlace(c: char, d: char)
    requires Legible(c) && Legible(d) && PlaceOf(c) == PlaceOf(d)
    ensures c == d
  {
  }

  lemma DistinctWhenIncreasing(u: string, l: string)
    requires |u| > 0 && |l| > 0 && u[|u| - 1] < l[0]
    requires forall k :: 0 <= k < |u| - 1 ==> u[k] < u[k + 1]
    requires forall k :: 0 <= k < |l| - 1 ==> l[k] < l[k + 1]
    ensures var s := u + l; forall i, j :: 0 <= i < j < |s| ==> s[i] != s[j]
    ensures var s := u + l; forall i :: 0 <= i < |s| ==> u[0] <= s[i] <= l[|l| - 1]
  {
    var s := u + l;
    JoinIncreases(u, l);
    forall i | 0 <= i < |s|
      ensures u[0] <= s[i] <= l[|l| - 1]
    {
      if 0 < i { Increasing(s, 0, i); }
      if i < |s| - 1 { Increasing(s, i, |s| - 1); }
    }
    forall i, j | 0 <= i < j < |s|
      ensures s[i] != s[j]
    {
      Increasing(s, i, j);
    }
  }

  // -------------------------------------------------------------- round trips

  lemma DigitsOfChars(a: Alphabet, ds: seq<int>)
    requires AllDigits(58, ds)
    ensures ValidChars(a, Chars(a, ds)) && Digits(a, Chars(a, ds)) == ds
  {
    var back := Digits(a, Chars(a, ds));
    assert forall i :: 0 <= i < |ds| ==> a[back[i]] == a[ds[i]];
  }

  /** Splitting off the leading zeros leaves the shortest digits of the number. */
  lemma StripLeading(b: int, ds: seq<int>)
    requires b >= 2 && AllDigits(b, ds)
    ensures Value(b, ds) >= 0
    ensures ds == Repeat<int>(0, Leading<int>(ds, 0)) + Minimal(b, Value(b, ds))
  {
    var n := Leading<int>(ds, 0);
    assert ds == Repeat<int>(0, n) + ds[n..];
    ValueLeadingZeros(b, n, ds[n..]);
    MinimalOfValue(b, ds[n..]);
  }

  lemma LeadingSplit<T>(x: T, n: nat, rest: seq<T>)
    requires |rest| > 0 ==> rest[0] != x
    ensures Leading(Repeat(x, n) + rest, x) == n
  {
    var s := Repeat(x, n) + rest;
    assert forall k :: 0 <= k < n ==> s[k] == x;
    assert |rest| > 0 ==> s[n] == rest[0];
  }

  /** A zero byte and a '1' are the same digit, so both strings start with equally many. */
  lemma LeadingDigits(a: Alphabet, input: string)
    requires ValidChars(a, input)
    ensures Leading<int>(Digits(a, input), 0) == Leading(input, '1')
  {
    var ds := Digits(a, input);
    assert forall k :: 0 <= k < |ds| ==> (ds[k] == 0 <==> a[ds[k]] == a[0]);
    assert forall k :: 0 <= k < |ds| ==> (ds[k] == 0 <==> input[k] == '1');
    assert Leading<int>(ds, 0) <= Leading(input, '1') <= Leading<int>(ds, 0);
  }

  lemma CharsSplit(a: Alphabet, n: nat, ds: seq<int>)
    requires AllDigits(58, ds)
    ensures AllDigits(58, Repeat<int>(0, n) + ds)
    ensures Chars(a, Repeat<int>(0, n) + ds) == Repeat('1', n) + Chars(a, ds)
  {
  }

  /** The digits of an encoding: one zero per leading zero byte, then the number's own. */
  lemma EncodedDigits(a: Alphabet, input: seq<Byte>)
    ensures Value(256, input) >= 0 && ValidChars(a, EncodeBase58(a, input))
    ensures Digits(a, EncodeBase58(a, input))
         == Repeat<int>(0, Leading<int>(input, 0)) + Minimal(58, Value(256, input))
  {
    ValueBounds(256, input);
    CharsSplit(a, Leading<int>(input, 0), Minimal(58, Value(256, input)));
    DigitsOfChars(a, Repeat<int>(0, Leading<int>(input, 0)) + Minimal(58, Value(256, input)));
  }

  /** Zeros followed by the shortest digits of `v` determine both their count and `v`. */
  lemma PaddedDigits(b: int, n: nat, v: nat)
    requires b >= 2
    ensures var ds := Repeat<int>(0, n) + Minimal(b, v);
            Leading<int>(ds, 0) == n && Value(b, ds) == v && AllDigits(b, ds)
  {
    ValueOfMinimal(b, v);
    LeadingSplit<int>(0, n, Minimal(b, v));
    ValueLeadingZeros(b, n, Minimal(b, v));
  }

  /** Decoding undoes encoding on every byte string, leading zero bytes included. */
  lemma DecodeEncode(a: Alphabet, input: seq<Byte>)
    ensures DecodeBase58(a, EncodeBase58(a, input)) == Ok(input)
  {
    EncodedDigits(a, input);
    PaddedDigits(58, Leading<int>(input, 0), Value(256, input));
    LeadingDigits(a, EncodeBase58(a, input));
    StripLeading(256, input);
  }

  /** Encoding undoes decoding on every string over the alphabet; other strings are refused. */
  lemma EncodeDecode(a: Alphabet, input: string)
    ensures DecodeBase58(a, input).Ok? <==> ValidChars(a, input)
    ensures DecodeBase58(a, input).Ok? ==> EncodeBase58(a, DecodeBase58(a, input).value) == input
  {
    if ValidChars(a, input) {
      var ds := Digits(a, input);
      StripLeading(58, ds);
      LeadingDigits(a, input);
      PaddedDigits(256, Leading(input, '1'), Value(58, ds));
      EncodedDigits(a, DecodeBase58(a, input).value);
      SameDigits(a, input, EncodeBase58(a, DecodeBase58(a, input).value));
    }
  }

  lemma SameDigits(a: Alphabet, s: string, t: string)
    requires ValidChars(a, s) && ValidChars(a, t) && Digits(a, s) == Digits(a, t)
    ensures s == t
  {
    assert forall i :: 0 <= i < |s| ==> s[i] == a[Digits(a, s)[i]] && t[i] == a[Digits(a, t)[i]];
  }

  // -------------------------------------------------------------- Base58Check

  /** SHA-256 stays uninterpreted: any function to 32 bytes. */
  type Digest32 = s: seq<Byte> | |s| == 32 witness Repeat<Byte>(0, 32)
  type Sha256 = seq<Byte> -> Digest32

  function Checksum4(sha: Sha256, payload: seq<Byte>): (c: seq<Byte>)
    ensures |c| == 4
  {
    sha(sha(payload))[..4]
  }

  function EncodeBase58Check(a: Alphabet, sha: Sha256, payload: seq<Byte>): string {
    EncodeBase58(a, payload + Checksum4(sha, payload))
  }

  function DecodeBase58Check(a: Alphabet, sha: Sha256, input: string): Result<seq<Byte>, Base58Error> {
    match DecodeBase58(a, input)
    case Err(e) => Err(e)
    case Ok(decoded) =>
      if |decoded| < 4 then Err(PayloadTooShort) else
        var payload := decoded[..|decoded| - 4];
        var checksum := decoded[|decoded| - 4..];
        if checksum != Checksum4(sha, payload) then Err(ChecksumMismatch) else Ok(payload)
  }

  /** The four bytes are the first of a double SHA-256. */
  lemma EncodesWithDoubleHash(a: Alphabet, sha: Sha256, payload: seq<Byte>)
    ensures EncodeBase58Check(a, sha, payload) == EncodeBase58(a, payload + sha(sha(payload))[..4])
  {
  }

  /** Accepted are exactly the texts that decode to a payload and the first four bytes of its double SHA-256. */
  lemma AcceptsExactly(a: Alphabet, sha: Sha256, input: string, payload: seq<Byte>)
    ensures DecodeBase58Check(a, sha, input) == Ok(payload)
            <==> DecodeBase58(a, input) == Ok(payload + sha(sha(payload))[..4])
  {
    if DecodeBase58(a, input).Ok? {
      SplitFour(DecodeBase58(a, input).value, payload, sha(sha(payload))[..4]);
    }
  }

  lemma SplitFour(decoded: seq<Byte>, payload: seq<Byte>, checksum: seq<Byte>)
    requires |checksum| == 4
    ensures decoded == payload + checksum
            <==> |decoded| >= 4 && decoded[..|decoded| - 4] == payload && decoded[|decoded| - 4..] == checksum
  {
    if |decoded| >= 4 {
      assert decoded == decoded[..|decoded| - 4] + decoded[|decoded| - 4..];
    }
  }

  /** Why a text is refused: a foreign character, fewer than four bytes, or another checksum. */
  lemma RefusesExactly(a: Alphabet, sha: Sha256, input: string)
    ensures DecodeBase58Check(a, sha, input) == Err(InvalidCharacter) <==> exists i :: 0 <= i < |input| && input[i] !in a
    ensures DecodeBase58Check(a, sha, input) == Err(PayloadTooShort)
            <==> DecodeBase58(a, input).Ok? && |DecodeBase58(a, input).value| < 4
    ensures DecodeBase58Check(a, sha, input) == Err(ChecksumMismatch)
            <==> DecodeBase58(a, input).Ok? && |DecodeBase58(a, input).value| >= 4
                 && forall payload :: DecodeBase58(a, input).value != payload + sha(sha(payload))[..4]
  {
    if DecodeBase58(a, input).Ok? && |DecodeBase58(a, input).value| >= 4 {
      var decoded := DecodeBase58(a, input).value;
      var payload := decoded[..|decoded| - 4];
      assert decoded == payload + decoded[|decoded| - 4..];
      if DecodeBase58Check(a, sha, input) == Err(ChecksumMismatch) {
        forall p
          ensures decoded != p + sha(sha(p))[..4]
        {
          AcceptsExactly(a, sha, input, p);
        }
      }
    }
  }

  lemma CheckDecodeEncode(a: Alphabet, sha: Sha256, payload: seq<Byte>)
    ensures DecodeBase58Check(a, sha, EncodeBase58Check(a, sha, payload)) == Ok(payload)
  {
    DecodeEncode(a, payload + Checksum4(sha, payload));
  }

  /** A string decodes to a payload exactly when it is that payload's encoding. */
  lemma CheckEncodeDecode(a: Alphabet, sha: Sha256, input: string, payload: seq<Byte>)
    ensures DecodeBase58Check(a, sha, input) == Ok(payload) <==> EncodeBase58Check(a, sha, payload) == input
  {
    if DecodeBase58Check(a, sha, input) == Ok(payload) {
      EncodeDecode(a, input);
      var decoded := DecodeBase58(a, input).value;
      assert decoded == payload + Checksum4(sha, payload);
    }
    CheckDecodeEncode(a, sha, payload);
  }

  // --------------------------------------------------------------- the loops

  /** The alphabet search of the decoder's inner loop. */
  method FindDigit(a: Alphabet, ch: char) returns (index: int)
    ensures index == if ch in a then DigitOf(a, ch) else -1
  {
    index := -1;
    var j := 0;
    while j < |a|
      invariant 0 <= j <= |a|
      invariant ch !in a[..j]
    {
      if a[j] == ch {
        return j;
      }
      j := j + 1;
    }
    assert a[..|a|] == a;
  }

  lemma DigitsSnoc(a: Alphabet, input: string, i: nat)
    requires i < |input| && ValidChars(a, input[..i]) && input[i] in a
    ensures ValidChars(a, input[..i + 1])
    ensures Value(58, Digits(a, input[..i + 1])) == Value(58, Digits(a, input[..i])) * 58 + DigitOf(a, input[i])
  {
    assert input[..i + 1][..i] == input[..i];
    ValueSnoc(58, Digits(a, input[..i]), DigitOf(a, input[i]));
  }

  /** Horner's rule over the characters, then left-padding with one zero byte per leading '1'. */
  method DecodeLoop(a: Alphabet, input: string) returns (r: Result<seq<Byte>, Base58Error>)
    ensures r == DecodeBase58(a, input)
  {
    var value := 0;
    for i := 0 to |input|
      invariant ValidChars(a, input[..i]) && value == Value(58, Digits(a, input[..i]))
    {
      var index := FindDigit(a, input[i]);
      if index < 0 {
        return Err(InvalidCharacter);
      }
      DigitsSnoc(a, input, i);
      value := value * 58 + index;
    }
    assert input[..|input|] == input;
    ValueBounds(58, Digits(a, input));
    var out := LeftPad(input, value);
    r := Ok(out);
  }

  /** One zero byte per leading '1', then the bytes of the number. */
  method LeftPad(input: string, value: nat) returns (r: seq<Byte>)
    ensures r == Repeat<int>(0, Leading(input, '1')) + Minimal(256, value)
  {
    var decoded: seq<Byte> := Minimal(256, value);
    var leadingZeroes := 0;
    while leadingZeroes < |input| && input[leadingZeroes] == '1'
      invariant 0 <= leadingZeroes <= |input|
      invariant forall k :: 0 <= k < leadingZeroes ==> input[k] == '1'
    {
      leadingZeroes := leadingZeroes + 1;
    }
    r := Repeat<int>(0, leadingZeroes) + decoded;
  }

  function Reversed<T>(s: seq<T>): (r: seq<T>)
    ensures |r| == |s| && forall i :: 0 <= i < |s| ==> r[i] == s[|s| - 1 - i]
  {
    seq(|s|, i requires 0 <= i < |s| => s[|s| - 1 - i])
  }

  lemma CharsSnoc(a: Alphabet, ds: seq<int>, d: int)
    requires AllDigits(58, ds) && 0 <= d < 58
    ensures AllDigits(58, ds + [d]) && Chars(a, ds + [d]) == Chars(a, ds) + [a[d]]
  {
  }

  lemma ReversedSnoc<T>(s: seq<T>, x: T)
    ensures Reversed(s + [x]) == [x] + Reversed(s)
  {
  }

  /** One turn of the division loop moves the low digit to the output. */
  lemma DivisionTurn(a: Alphabet, value: int, encoded: string)
    requires value > 0
    ensures 0 <= value / 58 < value
    ensures Chars(a, Minimal(58, value)) + Reversed(encoded)
         == Chars(a, Minimal(58, value / 58)) + Reversed(encoded + [a[value % 58]])
  {
    DivShrinks(value, 58);
    var digits, d := Minimal(58, value / 58), value % 58;
    CharsSnoc(a, digits, d);
    ReversedSnoc(encoded, a[d]);
    MoveAcross(Chars(a, digits), a[d], Reversed(encoded));
  }

  lemma MoveAcross<T>(xs: seq<T>, x: T, ys: seq<T>)
    ensures (xs + [x]) + ys == xs + ([x] + ys)
  {
  }

  lemma ReversedRepeat<T>(s: seq<T>, x: T, n: nat)
    ensures Reversed(s + Repeat(x, n)) == Repeat(x, n) + Reversed(s)
  {
  }

  /** Repeated division by 58, low digit first. */
  method DivideOut(a: Alphabet, number: nat) returns (encoded: string)
    ensures Reversed(encoded) == Chars(a, Minimal(58, number))
  {
    var value := number;
    encoded := [];
    while value > 0
      invariant value >= 0
      invariant Chars(a, Minimal(58, number)) == Chars(a, Minimal(58, value)) + Reversed(encoded)
      decreases value
    {
      DivisionTurn(a, value, encoded);
      encoded := encoded + [a[value % 58]];
      value := value / 58;
    }
  }

  /** One '1' per leading zero byte, appended because the text is still reversed. */
  method AppendOnes(digits: string, input: seq<Byte>) returns (encoded: string)
    ensures encoded == digits + Repeat('1', Leading<int>(input, 0))
  {
    encoded := digits;
    var i := 0;
    while i < |input| && input[i] == 0
      invariant 0 <= i <= |input|
      invariant forall k :: 0 <= k < i ==> input[k] == 0
      invariant encoded == digits + Repeat('1', i)
    {
      assert Repeat('1', i) + ['1'] == Repeat('1', i + 1);
      encoded := encoded + ['1'];
      i := i + 1;
    }
    assert i == Leading<int>(input, 0);
  }

  /** Division, leading ones, then an in-place reversal. */
  method EncodeLoop(a: Alphabet, input: seq<Byte>) returns (encoded: string)
    ensures encoded == EncodeBase58(a, input)
  {
    ValueBounds(256, input);
    var digits := DivideOut(a, Value(256, input));
    encoded := AppendOnes(digits, input);
    ReversedRepeat(digits, '1', Leading<int>(input, 0));
    var buffer := new char[|encoded|](k requires 0 <= k < |encoded| => encoded[k]);
    assert buffer[..] == encoded;
    ReverseInPlace(buffer);
    encoded := buffer[..];
  }

  /** Swapping from both ends inwards. */
  method ReverseInPlace(a: array<char>)
    modifies a
    ensures a[..] == Reversed(old(a[..]))
  {
    var lo, hi := 0, a.Length - 1;
    while lo < hi
      invariant 0 <= lo <= hi + 1 && lo + hi == a.Length - 1
      invariant forall k :: lo <= k <= hi ==> a[k] == old(a[k])
      invariant forall k :: 0 <= k < lo ==> a[k] == old(a[a.Length - 1 - k])
      invariant forall k :: hi < k < a.Length ==> a[k] == old(a[a.Length - 1 - k])
    {
      a[lo], a[hi] := a[hi], a[lo];
      lo, hi := lo + 1, hi - 1;
    }
  }
}
