/**
 `writeCanonicalJSON`: the byte string a request payload is hashed from.
 String quoting belongs to the JSON library, so it is a parameter.
 */
module CanonicalJson {
  import opened StringOrder

  /** A decoded JSON value; an object is an unordered map, a number is its literal. */
  datatype Json =
    | Null
    | Bool(value: bool)
    | Str(text: string)
    | Number(token: string)
    | Arr(items: seq<Json>)
    | Obj(members: map<string, Json>)

  type Quote = string -> string

  /** Quoted strings start with a quotation mark, and where one ends is determined by its own text. */
  ghost predicate SelfDelimiting(quote: Quote) {
    && (forall a :: |quote(a)| > 0 && quote(a)[0] == '"')
    && (forall a, b, x, y :: Delimits(quote, a, b, x, y))
  }

  ghost predicate Delimits(quote: Quote, a: string, b: string, x: string, y: string) {
    quote(a) + x == quote(b) + y ==> a == b && x == y
  }

  predicate NumberChar(c: char) {
    '0' <= c <= '9' || c == '-' || c == '+' || c == '.' || c == 'e' || c == 'E'
  }

  predicate NumberToken(t: string) {
    |t| > 0 && forall i :: 0 <= i < |t| ==> NumberChar(t[i])
  }

  /** Every number literal is made of number characters. */
  predicate WellFormed(j: Json) {
    match j
    case Number(token) => NumberToken(token)
    case Arr(items) => forall i :: 0 <= i < |items| ==> WellFormed(items[i])
    case Obj(members) => forall k :: k in members ==> WellFormed(members[k])
    case _ => true
  }

  /** The canonical text. */
  function Canon(quote: Quote, j: Json): string
    decreases j, 1
  {
    match j
    case Null => "null"
    case Bool(value) => if value then "true" else "false"
    case Str(text) => quote(text)
    case Number(token) => token
    case Arr(items) => "[" + Elements(quote, items, true) + "]"
    case Obj(members) => "{" + Members(quote, j, SortedKeys(members.Keys), true) + "}"
  }

  /** Comma-separated elements; `first` says whether a comma is still due. */
  function Elements(quote: Quote, items: seq<Json>, first: bool): string
    decreases items, 0
  {
    if |items| == 0 then "" else
      (if first then "" else ",") + Canon(quote, items[0]) + Elements(quote, items[1..], false)
  }

  function Members(quote: Quote, j: Json, keys: seq<string>, first: bool): string
    requires j.Obj? && forall k :: k in keys ==> k in j.members
    decreases j, 0, |keys|
  {
    if |keys| == 0 then "" else
      (if first then "" else ",") + quote(keys[0]) + ":" + Canon(quote, j.members[keys[0]])
        + Members(quote, j, keys[1..], false)
  }

  // -------------------------------------------------------------- the writer

  class Buffer {
    var contents: string

    constructor ()
      ensures contents == ""
    {
      contents := "";
    }

    method WriteString(s: string)
      modifies this
      ensures contents == old(contents) + s
    {
      contents := contents + s;
    }
  }

  /** Appends the canonical text of `value`; map iteration order does not matter. */
  method WriteCanonicalJson(quote: Quote, buf: Buffer, value: Json)
    modifies buf
    ensures buf.contents == old(buf.contents) + Canon(quote, value)
    decreases value, 2
  {
    match value
    case Null => buf.WriteString("null");
    case Bool(b) => buf.WriteString(if b then "true" else "false");
    case Str(text) => buf.WriteString(quote(text));
    case Number(token) => buf.WriteString(token);
    case Arr(_) => WriteArray(quote, buf, value);
    case Obj(_) => WriteObject(quote, buf, value);
  }

  method WriteArray(quote: Quote, buf: Buffer, value: Json)
    requires value.Arr?
    modifies buf
    ensures buf.contents == old(buf.contents) + Canon(quote, value)
    decreases value, 1
  {
    var items := value.items;
    buf.WriteString("[");
    ghost var start, done := buf.contents, "";
    assert start + done == start;
    assert items[0..] == items;
    for i := 0 to |items|
      invariant buf.contents == start + done
      invariant Elements(quote, items, true) == done + Elements(quote, items[i..], i == 0)
    {
      ElementsTurn(quote, items, i, done);
      WriteElement(quote, buf, items[i], i == 0);
      Regroup(start, done, Comma(i == 0) + Canon(quote, items[i]));
      done := done + (Comma(i == 0) + Canon(quote, items[i]));
    }
    assert done == Elements(quote, items, true);
    buf.WriteString("]");
    Bracket(old(buf.contents), "[", done, "]");
  }

  method WriteElement(quote: Quote, buf: Buffer, item: Json, first: bool)
    modifies buf
    ensures buf.contents == old(buf.contents) + (Comma(first) + Canon(quote, item))
    decreases item, 3
  {
    if !first {
      buf.WriteString(",");
    }
    WriteCanonicalJson(quote, buf, item);
    Regroup(old(buf.contents), Comma(first), Canon(quote, item));
  }

  method WriteObject(quote: Quote, buf: Buffer, value: Json)
    requires value.Obj?
    modifies buf
    ensures buf.contents == old(buf.contents) + Canon(quote, value)
    decreases value, 1
  {
    var keys := CollectKeys(value.members);
    keys := Sort(keys);
    AscendingUnique(keys, value.members.Keys);
    buf.WriteString("{");
    ghost var start, done := buf.contents, "";
    assert start + done == start;
    assert keys[0..] == keys;
    for i := 0 to |keys|
      invariant buf.contents == start + done
      invariant Members(quote, value, keys, true) == done + Members(quote, value, keys[i..], i == 0)
    {
      MembersTurn(quote, value, keys, i, done);
      WriteMember(quote, buf, keys[i], value.members[keys[i]], i == 0);
      ghost var text := Comma(i == 0) + (quote(keys[i]) + (":" + Canon(quote, value.members[keys[i]])));
      Regroup(start, done, text);
      done := done + text;
    }
    assert done == Members(quote, value, keys, true);
    buf.WriteString("}");
    Bracket(old(buf.contents), "{", done, "}");
  }

  method WriteMember(quote: Quote, buf: Buffer, key: string, item: Json, first: bool)
    modifies buf
    ensures buf.contents == old(buf.contents) + (Comma(first) + (quote(key) + (":" + Canon(quote, item))))
    decreases item, 3
  {
    if !first {
      buf.WriteString(",");
    }
    buf.WriteString(quote(key));
    buf.WriteString(":");
    WriteCanonicalJson(quote, buf, item);
    ghost var c := old(buf.contents);
    Regroup(c + Comma(first) + quote(key), ":", Canon(quote, item));
    Regroup(c + Comma(first), quote(key), ":" + Canon(quote, item));
    Regroup(c, Comma(first), quote(key) + (":" + Canon(quote, item)));
  }

  lemma Regroup(a: string, b: string, c: string)
    ensures a + b + c == a + (b + c)
  {
  }

  lemma Bracket(a: string, open: string, b: string, close: string)
    ensures a + open + b + close == a + (open + b + close)
  {
  }

  lemma ElementsTurn(quote: Quote, items: seq<Json>, i: nat, done: string)
    requires i < |items|
    ensures done + Elements(quote, items[i..], i == 0)
         == done + (Comma(i == 0) + Canon(quote, items[i])) + Elements(quote, items[i + 1..], false)
  {
    assert items[i..][1..] == items[i + 1..];
  }

  lemma MembersTurn(quote: Quote, j: Json, keys: seq<string>, i: nat, done: string)
    requires i < |keys| && j.Obj? && forall k :: k in keys ==> k in j.members
    ensures done + Members(quote, j, keys[i..], i == 0)
         == done + (Comma(i == 0) + (quote(keys[i]) + (":" + Canon(quote, j.members[keys[i]]))))
            + Members(quote, j, keys[i + 1..], false)
  {
    assert keys[i..][1..] == keys[i + 1..];
  }

  /** The keys of a map in an arbitrary order, as Go's `range` gives them. */
  method CollectKeys(members: map<string, Json>) returns (keys: seq<string>)
    ensures forall i, j :: 0 <= i < j < |keys| ==> keys[i] != keys[j]
    ensures forall k :: k in keys <==> k in members
  {
    keys := [];
    var todo := members.Keys;
    while todo != {}
      invariant todo <= members.Keys
      invariant forall i, j :: 0 <= i < j < |keys| ==> keys[i] != keys[j]
      invariant forall k :: k in keys <==> k in members && k !in todo
      decreases |todo|
    {
      var k :| k in todo;
      keys := keys + [k];
      todo := todo - {k};
    }
  }

  // ------------------------------------------------------------ faithfulness

  /** What may follow a value: nothing, or a separator. */
  predicate Follow(x: string) {
    |x| == 0 || x[0] == ',' || x[0] == ']' || x[0] == '}'
  }

  /** The first character tells the kinds of value apart. */
  predicate Starts(j: Json, c: char) {
    match j
    case Null => c == 'n'
    case Bool(value) => c == if value then 't' else 'f'
    case Str(_) => c == '"'
    case Number(_) => NumberChar(c)
    case Arr(_) => c == '['
    case Obj(_) => c == '{'
  }

  lemma CanonStarts(quote: Quote, j: Json)
    requires SelfDelimiting(quote) && WellFormed(j)
    ensures |Canon(quote, j)| > 0 && Starts(j, Canon(quote, j)[0])
  {
  }

  /** Number literals are read as far as they go. */
  lemma NumbersMunch(s: string, t: string, x: string, y: string)
    requires NumberToken(s) && NumberToken(t) && Follow(x) && Follow(y) && s + x == t + y
    ensures s == t && x == y
  {
    TokenNotShorter(s, t, x, y);
    TokenNotShorter(t, s, y, x);
    assert (s + x)[..|s|] == s && (t + y)[..|t|] == t;
    CancelPrefix(s, x, y);
  }

  lemma TokenNotShorter(s: string, t: string, x: string, y: string)
    requires NumberToken(t) && Follow(x) && s + x == t + y
    ensures |s| >= |t|
  {
    var w := t + y;
    assert w[..|t|] == t;
    assert w[|s|..] == x by {
      assert s + x == w;
    }
  }

  lemma CancelPrefix(p: string, x: string, y: string)
    requires p + x == p + y
    ensures x == y
  {
    assert (p + x)[|p|..] == x && (p + y)[|p|..] == y;
  }

  function Comma(first: bool): string {
    if first then "" else ","
  }

  /** Regroups an opened element list so that its first value comes first. */
  lemma ElementsUnfold(quote: Quote, u: seq<Json>, first: bool, tail: string)
    requires |u| > 0
    ensures Elements(quote, u, first) + tail
         == Comma(first) + (Canon(quote, u[0]) + (Elements(quote, u[1..], false) + tail))
  {
  }

  lemma MembersUnfold(quote: Quote, j: Json, keys: seq<string>, first: bool, tail: string)
    requires |keys| > 0 && j.Obj? && forall k :: k in keys ==> k in j.members
    ensures Members(quote, j, keys, first) + tail
         == Comma(first) + (quote(keys[0])
            + (":" + (Canon(quote, j.members[keys[0]]) + (Members(quote, j, keys[1..], false) + tail))))
  {
  }

  /** Canonical text determines the value it was written from, and where that value ends. */
  lemma {:induction false} CanonInjective(quote: Quote, a: Json, b: Json, x: string, y: string)
    requires SelfDelimiting(quote) && WellFormed(a) && WellFormed(b) && Follow(x) && Follow(y)
    requires Canon(quote, a) + x == Canon(quote, b) + y
    ensures a == b && x == y
    decreases a, 2
  {
    SameKind(quote, a, b, x, y);
    match a
    case Null => CancelPrefix("null", x, y);
    case Bool(value) => CancelPrefix(if value then "true" else "false", x, y);
    case Str(text) => assert Delimits(quote, text, b.text, x, y);
    case Number(token) => NumbersMunch(token, b.token, x, y);
    case Arr(items) => ArraysInjective(quote, a, b, x, y);
    case Obj(members) => ObjectsInjective(quote, a, b, x, y);
  }

  lemma SameKind(quote: Quote, a: Json, b: Json, x: string, y: string)
    requires SelfDelimiting(quote) && WellFormed(a) && WellFormed(b)
    requires Canon(quote, a) + x == Canon(quote, b) + y
    ensures Starts(a, Canon(quote, b)[..1][0]) && |Canon(quote, b)| > 0
    ensures a.Null? == b.Null? && a.Bool? == b.Bool? && a.Str? == b.Str?
    ensures a.Number? == b.Number? && a.Arr? == b.Arr? && a.Obj? == b.Obj?
    ensures a.Bool? ==> a.value == b.value
  {
    CanonStarts(quote, a);
    CanonStarts(quote, b);
    assert (Canon(quote, a) + x)[0] == Canon(quote, a)[0];
    assert (Canon(quote, b) + y)[0] == Canon(quote, b)[0];
  }

  lemma {:induction false} ArraysInjective(quote: Quote, a: Json, b: Json, x: string, y: string)
    requires SelfDelimiting(quote) && WellFormed(a) && WellFormed(b) && a.Arr? && b.Arr?
    requires Canon(quote, a) + x == Canon(quote, b) + y
    ensures a == b && x == y
    decreases a, 1
  {
    var ea, eb := Elements(quote, a.items, true), Elements(quote, b.items, true);
    assert Canon(quote, a) + x == "[" + (ea + ("]" + x));
    assert Canon(quote, b) + y == "[" + (eb + ("]" + y));
    CancelPrefix("[", ea + ("]" + x), eb + ("]" + y));
    ElementsInjective(quote, a.items, b.items, true, x, y);
  }

  lemma {:induction false} ObjectsInjective(quote: Quote, a: Json, b: Json, x: string, y: string)
    requires SelfDelimiting(quote) && WellFormed(a) && WellFormed(b) && a.Obj? && b.Obj?
    requires Canon(quote, a) + x == Canon(quote, b) + y
    ensures a == b && x == y
    decreases a, 1
  {
    var ka, kb := SortedKeys(a.members.Keys), SortedKeys(b.members.Keys);
    Braces(quote, a, x);
    Braces(quote, b, y);
    CancelPrefix("{", Members(quote, a, ka, true) + ("}" + x), Members(quote, b, kb, true) + ("}" + y));
    MembersInjective(quote, a, b, ka, kb, true, x, y);
    SameMembers(a.members, b.members, ka);
  }

  lemma Braces(quote: Quote, a: Json, x: string)
    requires a.Obj?
    ensures Canon(quote, a) + x == "{" + (Members(quote, a, SortedKeys(a.members.Keys), true) + ("}" + x))
  {
  }

  lemma SameMembers(a: map<string, Json>, b: map<string, Json>, keys: seq<string>)
    requires forall k :: k in keys <==> k in a
    requires forall k :: k in keys <==> k in b
    requires forall k :: k in keys ==> a[k] == b[k]
    ensures a == b
  {
    assert forall k :: k in a <==> k in keys;
    assert forall k :: k in b <==> k in keys;
    assert a.Keys == b.Keys;
  }

  /** An empty list cannot be mistaken for one with elements. */
  lemma EmptyElements(quote: Quote, v: seq<Json>, first: bool, x: string, y: string)
    requires SelfDelimiting(quote) && forall i :: 0 <= i < |v| ==> WellFormed(v[i])
    requires "]" + x == Elements(quote, v, first) + ("]" + y)
    ensures v == []
  {
    assert ("]" + x)[0] == ']';
    if |v| > 0 {
      ElementsUnfold(quote, v, first, "]" + y);
      CanonStarts(quote, v[0]);
    }
  }

  lemma {:induction false} ElementsInjective(quote: Quote, u: seq<Json>, v: seq<Json>, first: bool, x: string, y: string)
    requires SelfDelimiting(quote)
    requires forall i :: 0 <= i < |u| ==> WellFormed(u[i])
    requires forall i :: 0 <= i < |v| ==> WellFormed(v[i])
    requires Elements(quote, u, first) + ("]" + x) == Elements(quote, v, first) + ("]" + y)
    ensures u == v && x == y
    decreases u, 0
  {
    if |u| == 0 {
      assert Elements(quote, u, first) + ("]" + x) == "]" + x;
      EmptyElements(quote, v, first, x, y);
      CancelPrefix("]", x, y);
    } else if |v| == 0 {
      assert Elements(quote, v, first) + ("]" + y) == "]" + y;
      EmptyElements(quote, u, first, y, x);
    } else {
      var tu, tv := Elements(quote, u[1..], false) + ("]" + x), Elements(quote, v[1..], false) + ("]" + y);
      ElementsUnfold(quote, u, first, "]" + x);
      ElementsUnfold(quote, v, first, "]" + y);
      CancelPrefix(Comma(first), Canon(quote, u[0]) + tu, Canon(quote, v[0]) + tv);
      ElementsFollow(quote, u[1..], x);
      ElementsFollow(quote, v[1..], y);
      CanonInjective(quote, u[0], v[0], tu, tv);
      ElementsInjective(quote, u[1..], v[1..], false, x, y);
      assert u == [u[0]] + u[1..] && v == [v[0]] + v[1..];
    }
  }

  lemma ElementsFollow(quote: Quote, u: seq<Json>, x: string)
    ensures Follow(Elements(quote, u, false) + ("]" + x))
  {
    if |u| > 0 {
      ElementsUnfold(quote, u, false, "]" + x);
    }
  }

  lemma MembersFollow(quote: Quote, j: Json, keys: seq<string>, x: string)
    requires j.Obj? && forall k :: k in keys ==> k in j.members
    ensures Follow(Members(quote, j, keys, false) + ("}" + x))
  {
    if |keys| > 0 {
      MembersUnfold(quote, j, keys, false, "}" + x);
    }
  }

  lemma EmptyMembers(quote: Quote, j: Json, keys: seq<string>, first: bool, x: string, y: string)
    requires SelfDelimiting(quote) && j.Obj? && forall k :: k in keys ==> k in j.members
    requires "}" + x == Members(quote, j, keys, first) + ("}" + y)
    ensures keys == []
  {
    assert ("}" + x)[0] == '}';
    if |keys| > 0 {
      MembersUnfold(quote, j, keys, first, "}" + y);
    }
  }

  lemma {:induction false} MembersInjective(quote: Quote, a: Json, b: Json, ka: seq<string>, kb: seq<string>,
                                            first: bool, x: string, y: string)
    requires SelfDelimiting(quote) && a.Obj? && b.Obj? && WellFormed(a) && WellFormed(b)
    requires (forall k :: k in ka ==> k in a.members) && (forall k :: k in kb ==> k in b.members)
    requires Members(quote, a, ka, first) + ("}" + x) == Members(quote, b, kb, first) + ("}" + y)
    ensures ka == kb && x == y && forall k :: k in ka ==> a.members[k] == b.members[k]
    decreases a, 0, |ka|
  {
    if |ka| == 0 {
      assert Members(quote, a, ka, first) + ("}" + x) == "}" + x;
      EmptyMembers(quote, b, kb, first, x, y);
      CancelPrefix("}", x, y);
    } else if |kb| == 0 {
      assert Members(quote, b, kb, first) + ("}" + y) == "}" + y;
      EmptyMembers(quote, a, ka, first, y, x);
    } else {
      var ta, tb := Members(quote, a, ka[1..], false) + ("}" + x), Members(quote, b, kb[1..], false) + ("}" + y);
      var va, vb := a.members[ka[0]], b.members[kb[0]];
      MembersUnfold(quote, a, ka, first, "}" + x);
      MembersUnfold(quote, b, kb, first, "}" + y);
      var ra, rb := ":" + (Canon(quote, va) + ta), ":" + (Canon(quote, vb) + tb);
      CancelPrefix(Comma(first), quote(ka[0]) + ra, quote(kb[0]) + rb);
      assert Delimits(quote, ka[0], kb[0], ra, rb);
      CancelPrefix(":", Canon(quote, va) + ta, Canon(quote, vb) + tb);
      MembersFollow(quote, a, ka[1..], x);
      MembersFollow(quote, b, kb[1..], y);
      CanonInjective(quote, va, vb, ta, tb);
      MembersInjective(quote, a, b, ka[1..], kb[1..], false, x, y);
      assert ka == [ka[0]] + ka[1..] && kb == [kb[0]] + kb[1..];
    }
  }

  /** Two values have the same canonical text exactly when they are the same value. */
  lemma CanonIsFaithful(quote: Quote, a: Json, b: Json)
    requires SelfDelimiting(quote) && WellFormed(a) && WellFormed(b)
    ensures Canon(quote, a) == Canon(quote, b) <==> a == b
  {
    if Canon(quote, a) == Canon(quote, b) {
      assert Canon(quote, a) + "" == Canon(quote, b) + "";
      CanonInjective(quote, a, b, "", "");
    }
  }
}
