/**
 Reading JSON string literals as RFC 8259, section 7, defines them: what the
 program quotes is read back, so the hashed text is JSON for the request.
 */
module JsonUnquote {
  import opened CanonicalJson
  import opened Common
  import opened JsonQuote
  import opened JsonReader
  import opened Radix
  import opened RequestHash

  /** The character a two-character escape stands for. */
  function ShortMeaning(letter: char): Option<char> {
    match letter
    case '"' => Some('"')
    case '\\' => Some('\\')
    case '/' => Some('/')
    case 'b' => Some('\U{0008}')
    case 'f' => Some('\U{000C}')
    case 'n' => Some('\U{000A}')
    case 'r' => Some('\U{000D}')
    case 't' => Some('\U{0009}')
    case _ => None
  }

  function HexValue(c: char): (d: Option<int>)
    ensures d.Some? ==> 0 <= d.value < 16
  {
    if '0' <= c <= '9' then Some(c as int - '0' as int)
    else if 'a' <= c <= 'f' then Some(c as int - 'a' as int + 10)
    else if 'A' <= c <= 'F' then Some(c as int - 'A' as int + 10)
    else None
  }

  /** The character of four hexadecimal digits; surrogates are no characters by themselves. */
  function UnicodeMeaning(a: char, b: char, c: char, d: char): Option<char> {
    if HexValue(a).None? || HexValue(b).None? || HexValue(c).None? || HexValue(d).None? then None else
      var n := 0x1000 * HexValue(a).value + 0x100 * HexValue(b).value + 0x10 * HexValue(c).value + HexValue(d).value;
      if 0xD800 <= n < 0xE000 then None else Some(n as char)
  }

  /** The first character of a literal's contents, and how much text it takes. */
  function ReadChar(t: string): (r: Option<(char, nat)>)
    ensures r.Some? ==> 0 < r.value.1 <= |t|
  {
    if |t| == 0 || t[0] < ' ' then None
    else if t[0] != '\\' then Some((t[0], 1))
    else if |t| >= 2 && ShortMeaning(t[1]).Some? then Some((ShortMeaning(t[1]).value, 2))
    else if |t| >= 6 && t[1] == 'u' && UnicodeMeaning(t[2], t[3], t[4], t[5]).Some? then
      Some((UnicodeMeaning(t[2], t[3], t[4], t[5]).value, 6))
    else None
  }

  /** The rest of a literal whose contents so far are `done`. */
  function ReadChars(t: string, done: string): Option<(string, string)>
    decreases |t|
  {
    if |t| > 0 && t[0] == '"' then Some((done, t[1..])) else
      var c := ReadChar(t);
      if c.None? then None else ReadChars(t[c.value.1..], done + [c.value.0])
  }

  function ReadString(t: string): Option<(string, string)> {
    if |t| > 0 && t[0] == '"' then ReadChars(t[1..], "") else None
  }

  // --------------------------------------------------------------- it reads back

  lemma HexDigitReads(d: int)
    requires 0 <= d < 16
    ensures HexValue(HexDigit(d)) == Some(d)
  {
  }

  lemma Nibbles(n: nat)
    requires n < 0x1_0000
    ensures n == 0x1000 * (n / 0x1000 % 0x10) + 0x100 * (n / 0x100 % 0x10) + 0x10 * (n / 0x10 % 0x10) + n % 0x10
  {
    assert n / 0x100 == 0x10 * (n / 0x1000) + n / 0x100 % 0x10;
    assert n / 0x10 == 0x10 * (n / 0x100) + n / 0x10 % 0x10;
    assert n / 0x1000 % 0x10 == n / 0x1000;
  }

  lemma FourNibbles(n: nat)
    ensures var ds := Fixed(16, 4, n);
            && |ds| == 4 && ds[0] == n / 0x1000 % 0x10 && ds[1] == n / 0x100 % 0x10
            && ds[2] == n / 0x10 % 0x10 && ds[3] == n % 0x10
  {
    FixedAt(16, 4, n, 0);
    FixedAt(16, 4, n, 1);
    FixedAt(16, 4, n, 2);
    FixedAt(16, 4, n, 3);
    assert Power(16, 0) == 1 && Power(16, 1) == 0x10 && Power(16, 2) == 0x100 && Power(16, 3) == 0x1000;
  }

  lemma HexReads(c: char)
    requires c as int < 0x1_0000
    ensures var h := HexText(Fixed(16, 4, c as int));
            |h| == 4 && UnicodeMeaning(h[0], h[1], h[2], h[3]) == Some(c)
  {
    var ds := Fixed(16, 4, c as int);
    FourNibbles(c as int);
    Nibbles(c as int);
    DigitsMean(ds[0], ds[1], ds[2], ds[3], c);
  }

  lemma DigitsMean(i: int, j: int, k: int, l: int, c: char)
    requires 0 <= i < 16 && 0 <= j < 16 && 0 <= k < 16 && 0 <= l < 16
    requires c as int == 0x1000 * i + 0x100 * j + 0x10 * k + l
    ensures UnicodeMeaning(HexDigit(i), HexDigit(j), HexDigit(k), HexDigit(l)) == Some(c)
  {
    HexDigitReads(i);
    HexDigitReads(j);
    HexDigitReads(k);
    HexDigitReads(l);
  }

  /** Every escape is read back as the character it was written for. */
  lemma EscapeReads(c: char, x: string)
    ensures Escape(c) + x != "" && (Escape(c) + x)[0] != '"'
    ensures ReadChar(Escape(c) + x) == Some((c, |Escape(c)|))
  {
    var t := Escape(c) + x;
    EscapeKind(c);
    FirstChars(Escape(c), x);
    if ShortEscape(c).Some? {
      assert t[1] == ShortEscape(c).value;
    } else if UnicodeEscaped(c) {
      HexReads(c);
      var h := HexText(Fixed(16, 4, c as int));
      assert t[2] == h[0] && t[3] == h[1] && t[4] == h[2] && t[5] == h[3];
    }
  }

  lemma {:induction false} BodyReads(a: string, x: string, done: string)
    ensures ReadChars(Body(a, x), done) == Some((done + a, x))
  {
    if |a| == 0 {
      assert (['"'] + x)[1..] == x && done + a == done;
    } else {
      var rest := Body(a[1..], x);
      EscapeReads(a[0], rest);
      assert (Escape(a[0]) + rest)[|Escape(a[0])|..] == rest;
      BodyReads(a[1..], x, done + [a[0]]);
      assert done + [a[0]] + a[1..] == done + a;
    }
  }

  /** The program's quoting is JSON: the reader gets back every string, whatever follows it. */
  lemma QuotedReads()
    ensures Reads(Quoted, ReadString)
  {
    forall a, x
      ensures ReadsOne(Quoted, ReadString, a, x)
    {
      QuotedThenRest(a, x);
      assert ("\"" + Body(a, x))[1..] == Body(a, x);
      BodyReads(a, x, "");
      assert "" + a == a;
    }
  }

  /** The text a request is hashed from is JSON, and denotes the request's payload. */
  lemma RequestTextIsJson(a: HashInput)
    requires WellFormed(Obj(a.metadata))
    ensures ReadValue(ReadString, Canon(Quoted, Payload(a))) == Some((Payload(a), ""))
  {
    QuotedReads();
    PayloadWellFormed(a);
    CanonIsJson(Quoted, ReadString, Payload(a));
  }
}
