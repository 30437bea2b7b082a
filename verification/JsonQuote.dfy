/**
 Go's JSON string quoting with HTML escaping, on valid Unicode text: it is
 injective, and where a quoted string ends can be read off its own text.
 */
module JsonQuote {
  import opened Common
  import opened CanonicalJson
  import opened Decimal
  import opened Radix
  import opened RequestHash

  /** The characters written as `\u` and four hexadecimal digits. */
  predicate UnicodeEscaped(c: char) {
    || (c < ' ' && c != '\n' && c != '\r' && c != '\t' && c != '\U{0008}' && c != '\U{000C}')
    || c == '<' || c == '>' || c == '&' || c == '\U{2028}' || c == '\U{2029}'
  }

  /** The letter after the backslash of a two-character escape. */
  function ShortEscape(c: char): Option<char> {
    if c == '"' || c == '\\' then Some(c)
    else if c == '\U{0008}' then Some('b')
    else if c == '\U{000C}' then Some('f')
    else if c == '\n' then Some('n')
    else if c == '\r' then Some('r')
    else if c == '\t' then Some('t')
    else None
  }

  function HexDigit(d: int): (c: char)
    requires 0 <= d < 16
    ensures c as int == if d < 10 then 48 + d else 87 + d
  {
    (if d < 10 then 48 + d else 87 + d) as char
  }

  function HexText(ds: seq<int>): (s: string)
    requires AllDigits(16, ds)
    ensures |s| == |ds| && forall i :: 0 <= i < |ds| ==> s[i] == HexDigit(ds[i])
  {
    seq(|ds|, i requires 0 <= i < |ds| => HexDigit(ds[i]))
  }

  function Escape(c: char): (e: string)
    ensures |e| > 0 && e[0] != '"'
  {
    if ShortEscape(c).Some? then ['\\', ShortEscape(c).value]
    else if UnicodeEscaped(c) then ['\\', 'u'] + HexText(Fixed(16, 4, c as int))
    else [c]
  }

  function EscapeAll(s: string): string {
    if |s| == 0 then "" else Escape(s[0]) + EscapeAll(s[1..])
  }

  function Quoted(s: string): string {
    "\"" + EscapeAll(s) + "\""
  }

  lemma HexInjective(m: nat, n: nat)
    requires m < 0x1_0000 && n < 0x1_0000 && HexText(Fixed(16, 4, m)) == HexText(Fixed(16, 4, n))
    ensures m == n
  {
    var u, v := Fixed(16, 4, m), Fixed(16, 4, n);
    forall i | 0 <= i < 4
      ensures u[i] == v[i]
    {
      assert HexText(u)[i] == HexText(v)[i];
    }
    assert u == v;
    assert Power(16, 4) == 0x1_0000;
    ValueOfFixed(16, 4, m);
    ValueOfFixed(16, 4, n);
  }

  lemma ShortEscapeInjective(c: char, d: char)
    requires ShortEscape(c).Some? && ShortEscape(c) == ShortEscape(d)
    ensures c == d
    ensures ShortEscape(c).value != 'u'
  {
  }

  /** How an escape's first two characters tell its kind. */
  lemma EscapeKind(c: char)
    ensures if ShortEscape(c).Some? then |Escape(c)| == 2 && Escape(c)[0] == '\\' && Escape(c)[1] != 'u'
            else if UnicodeEscaped(c) then |Escape(c)| == 6 && Escape(c)[0] == '\\' && Escape(c)[1] == 'u'
            else Escape(c) == [c] && c != '\\'
  {
    if ShortEscape(c).Some? { ShortEscapeInjective(c, c); }
  }

  lemma SameSuffix(a: string, x: string, b: string, y: string)
    requires a + x == b + y && |a| == |b|
    ensures a == b && x == y
  {
    assert (a + x)[..|a|] == a && (b + y)[..|b|] == b;
    assert (a + x)[|a|..] == x && (b + y)[|b|..] == y;
  }

  lemma FirstChars(a: string, x: string)
    requires |a| > 0
    ensures (a + x)[0] == a[0]
    ensures |a| > 1 ==> (a + x)[1] == a[1]
  {
  }

  /** No escape is a prefix of another. */
  lemma EscapePrefixFree(c: char, d: char, x: string, y: string)
    requires Escape(c) + x == Escape(d) + y
    ensures c == d && x == y
  {
    EscapeKind(c);
    EscapeKind(d);
    FirstChars(Escape(c), x);
    FirstChars(Escape(d), y);
    SameSuffix(Escape(c), x, Escape(d), y);
    if ShortEscape(c).Some? {
      assert Escape(c)[1] == ShortEscape(c).value && Escape(d)[1] == ShortEscape(d).value;
      ShortEscapeInjective(c, d);
    } else if UnicodeEscaped(c) {
      assert Escape(c)[2..] == HexText(Fixed(16, 4, c as int));
      assert Escape(d)[2..] == HexText(Fixed(16, 4, d as int));
      HexInjective(c as int, d as int);
    }
  }

  /** What follows the opening quotation mark: the escapes, the closing mark and the rest. */
  function Body(a: string, x: string): (body: string)
    ensures |body| > 0 && (body[0] == '"' <==> |a| == 0)
  {
    if |a| == 0 then ['"'] + x else
      FirstChars(Escape(a[0]), Body(a[1..], x));
      Escape(a[0]) + Body(a[1..], x)
  }

  lemma Regroup(q: string, e: string, f: string, r: string, x: string)
    ensures q + (e + f) + r + x == q + (e + (f + r + x))
  {
  }

  lemma {:induction false} EscapesThenRest(a: string, x: string)
    ensures EscapeAll(a) + "\"" + x == Body(a, x)
  {
    if |a| == 0 {
    } else {
      EscapesThenRest(a[1..], x);
      Regroup("", Escape(a[0]), EscapeAll(a[1..]), "\"", x);
    }
  }

  lemma QuotedThenRest(a: string, x: string)
    ensures Quoted(a) + x == "\"" + Body(a, x)
  {
    EscapesThenRest(a, x);
    Regroup("\"", "", EscapeAll(a), "\"", x);
  }

  lemma {:induction false} BodyDelimits(a: string, b: string, x: string, y: string)
    requires Body(a, x) == Body(b, y)
    ensures a == b && x == y
  {
    if |a| == 0 {
      SameSuffix(['"'], x, ['"'], y);
    } else {
      EscapePrefixFree(a[0], b[0], Body(a[1..], x), Body(b[1..], y));
      BodyDelimits(a[1..], b[1..], x, y);
    }
  }

  lemma QuotedDelimits(a: string, b: string, x: string, y: string)
    requires Quoted(a) + x == Quoted(b) + y
    ensures a == b && x == y
  {
    QuotedThenRest(a, x);
    QuotedThenRest(b, y);
    SameSuffix("\"", Body(a, x), "\"", Body(b, y));
    BodyDelimits(a, b, x, y);
  }

  /** The quoting the program uses satisfies what the canonical text needs. */
  lemma QuotedIsSelfDelimiting()
    ensures SelfDelimiting(Quoted)
  {
    forall a, b, x, y
      ensures Delimits(Quoted, a, b, x, y)
    {
      if Quoted(a) + x == Quoted(b) + y { QuotedDelimits(a, b, x, y); }
    }
  }

  /** With that quoting, two requests have one canonical text exactly when they are equal. */
  lemma QuotedRequestIsFaithful(a: HashInput, b: HashInput)
    requires WellFormed(Obj(a.metadata)) && WellFormed(Obj(b.metadata))
    ensures Canon(Quoted, Payload(a)) == Canon(Quoted, Payload(b)) <==> a == b
  {
    QuotedIsSelfDelimiting();
    RequestTextIsFaithful(Quoted, a, b);
  }
}
