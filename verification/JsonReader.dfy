/**
 A reader of compact JSON, written from RFC 8259 (sections 2 to 7) and not from
 the writer: the canonical text of a value is JSON, and reads back as the value.
 */
module JsonReader {
  import opened CanonicalJson
  import opened Common
  import opened StringOrder

  /** Reads a string literal off the front of a text, and returns the string and the rest. */
  type Unquote = string -> Option<(string, string)>

  /** What `quote` writes, `unquote` reads, whatever follows; a literal opens with a quotation mark. */
  ghost predicate Reads(quote: Quote, unquote: Unquote) {
    && (forall a :: |quote(a)| > 0 && quote(a)[0] == '"')
    && (forall a, x :: ReadsOne(quote, unquote, a, x))
  }

  ghost predicate ReadsOne(quote: Quote, unquote: Unquote, a: string, x: string) {
    unquote(quote(a) + x) == Some((a, x))
  }

  // ------------------------------------------------------------------ the reader

  /** The number characters a text starts with. */
  function NumberPrefix(t: string): (n: nat)
    ensures n <= |t|
  {
    if |t| > 0 && NumberChar(t[0]) then 1 + NumberPrefix(t[1..]) else 0
  }

  predicate StartsWith(t: string, word: string) {
    |word| <= |t| && t[..|word|] == word
  }

  /** One value off the front of a text, and the rest. */
  function ReadValue(unquote: Unquote, t: string): (r: Option<(Json, string)>)
    ensures r.Some? ==> |r.value.1| < |t|
    decreases |t|, 0
  {
    if |t| == 0 then None
    else if t[0] == '"' then
      var s := unquote(t);
      if s.Some? && |s.value.1| < |t| then Some((Str(s.value.0), s.value.1)) else None
    else if t[0] == '[' then ReadItems(unquote, t[1..], true, [])
    else if t[0] == '{' then ReadMembers(unquote, t[1..], true, map[])
    else if NumberChar(t[0]) then Some((Number(t[..NumberPrefix(t)]), t[NumberPrefix(t)..]))
    else if StartsWith(t, "null") then Some((Null, t[4..]))
    else if StartsWith(t, "true") then Some((Bool(true), t[4..]))
    else if StartsWith(t, "false") then Some((Bool(false), t[5..]))
    else None
  }

  /** The text after the comma that separates all values but the first. */
  function AfterComma(t: string, first: bool): (r: Option<string>)
    ensures r.Some? ==> |r.value| <= |t|
  {
    if first then Some(t) else if |t| > 0 && t[0] == ',' then Some(t[1..]) else None
  }

  /** The rest of an array whose items so far are `items`. */
  function ReadItems(unquote: Unquote, t: string, first: bool, items: seq<Json>): (r: Option<(Json, string)>)
    ensures r.Some? ==> |r.value.1| < |t|
    decreases |t|, 1
  {
    if |t| > 0 && t[0] == ']' then Some((Arr(items), t[1..])) else
      var next := AfterComma(t, first);
      if next.None? then None else
        var read := ReadValue(unquote, next.value);
        if read.None? then None else ReadItems(unquote, read.value.1, false, items + [read.value.0])
  }

  /** The rest of an object whose members so far are `members`. */
  function ReadMembers(unquote: Unquote, t: string, first: bool, members: map<string, Json>): (r: Option<(Json, string)>)
    ensures r.Some? ==> |r.value.1| < |t|
    decreases |t|, 1
  {
    if |t| > 0 && t[0] == '}' then Some((Obj(members), t[1..])) else
      var next := AfterComma(t, first);
      if next.None? then None else
        var key := unquote(next.value);
        if key.None? || |key.value.1| >= |next.value| || !StartsWith(key.value.1, ":") then None else
          var read := ReadValue(unquote, key.value.1[1..]);
          if read.None? then None else
            ReadMembers(unquote, read.value.1, false, members[key.value.0 := read.value.0])
  }

  // ------------------------------------------------------------- it reads back

  /** A quoting that can be read is self-delimiting. */
  lemma ReadableIsSelfDelimiting(quote: Quote, unquote: Unquote)
    requires Reads(quote, unquote)
    ensures SelfDelimiting(quote)
  {
    forall a, b, x, y
      ensures Delimits(quote, a, b, x, y)
    {
      assert ReadsOne(quote, unquote, a, x) && ReadsOne(quote, unquote, b, y);
    }
  }

  lemma {:induction false} TokenPrefix(token: string, x: string)
    requires (forall i :: 0 <= i < |token| ==> NumberChar(token[i])) && Follow(x)
    ensures NumberPrefix(token + x) == |token|
  {
    if |token| == 0 {
      assert token + x == x;
    } else {
      assert (token + x)[1..] == token[1..] + x;
      TokenPrefix(token[1..], x);
    }
  }

  lemma Split(a: string, x: string)
    ensures (a + x)[..|a|] == a && (a + x)[|a|..] == x
  {
  }

  lemma WordReads(unquote: Unquote, j: Json, word: string, x: string)
    requires j in {Null, Bool(true), Bool(false)}
    requires word == if j.Null? then "null" else if j.value then "true" else "false"
    ensures ReadValue(unquote, word + x) == Some((j, x))
  {
    Split(word, x);
    assert (word + x)[0] == word[0];
    if j == Bool(true) { assert (word + x)[..4][0] != 'n'; }
    if j == Bool(false) { assert (word + x)[0] == 'f'; assert !StartsWith(word + x, "null") && !StartsWith(word + x, "true"); }
  }

  lemma NumberReads(unquote: Unquote, token: string, x: string)
    requires NumberToken(token) && Follow(x)
    ensures ReadValue(unquote, token + x) == Some((Number(token), x))
  {
    TokenPrefix(token, x);
    Split(token, x);
    assert (token + x)[0] == token[0];
  }

  lemma StringReads(quote: Quote, unquote: Unquote, text: string, x: string)
    requires Reads(quote, unquote)
    ensures ReadValue(unquote, quote(text) + x) == Some((Str(text), x))
  {
    assert ReadsOne(quote, unquote, text, x);
    assert (quote(text) + x)[0] == '"';
  }

  /** The canonical text of a value, whatever separator follows, reads back as the value. */
  lemma {:induction false} CanonReadsBack(quote: Quote, unquote: Unquote, j: Json, x: string)
    requires Reads(quote, unquote) && WellFormed(j) && Follow(x)
    ensures ReadValue(unquote, Canon(quote, j) + x) == Some((j, x))
    decreases j, 1
  {
    match j
    case Null => WordReads(unquote, j, "null", x);
    case Bool(value) => WordReads(unquote, j, if value then "true" else "false", x);
    case Str(text) => StringReads(quote, unquote, text, x);
    case Number(token) => NumberReads(unquote, token, x);
    case Arr(items) =>
      var rest := Elements(quote, items, true) + ("]" + x);
      assert Canon(quote, j) + x == "[" + rest;
      Split("[", rest);
      ElementsReadBack(quote, unquote, items, true, [], x);
      assert [] + items == items;
    case Obj(members) =>
      var keys := SortedKeys(members.Keys);
      var rest := Members(quote, j, keys, true) + ("}" + x);
      Braces(quote, j, x);
      Split("{", rest);
      MembersReadBack(quote, unquote, j, keys, true, map[], x);
      GatheredAll(map[], members, keys);
  }

  lemma {:induction false} ElementsReadBack(quote: Quote, unquote: Unquote, items: seq<Json>, first: bool,
                                            done: seq<Json>, x: string)
    requires Reads(quote, unquote) && forall i :: 0 <= i < |items| ==> WellFormed(items[i])
    ensures ReadItems(unquote, Elements(quote, items, first) + ("]" + x), first, done) == Some((Arr(done + items), x))
    decreases items, 0
  {
    if |items| == 0 {
      assert Elements(quote, items, first) + ("]" + x) == "]" + x;
      Split("]", x);
      assert done + items == done;
    } else {
      var tail := Elements(quote, items[1..], false) + ("]" + x);
      var text := Canon(quote, items[0]) + tail;
      ElementsUnfold(quote, items, first, "]" + x);
      ReadableIsSelfDelimiting(quote, unquote);
      CanonStarts(quote, items[0]);
      ElementsFollow(quote, items[1..], x);
      CanonReadsBack(quote, unquote, items[0], tail);
      ElementsReadBack(quote, unquote, items[1..], false, done + [items[0]], x);
      assert done + [items[0]] + items[1..] == done + items;
      CommaThen(first, text);
      assert text[0] != ']';
    }
  }

  /** Past the comma, if one is due, comes the text. */
  lemma CommaThen(first: bool, text: string)
    requires |text| > 0
    ensures AfterComma(Comma(first) + text, first) == Some(text)
    ensures |Comma(first) + text| > 0
    ensures (Comma(first) + text)[0] == if first then text[0] else ','
  {
    if first { assert Comma(first) + text == text; } else { Split(",", text); }
  }

  /** `members` with the listed keys of `m` put in, in their order. */
  function Gathered(members: map<string, Json>, m: map<string, Json>, keys: seq<string>): map<string, Json>
    requires forall k :: k in keys ==> k in m
    decreases |keys|
  {
    if |keys| == 0 then members else Gathered(members[keys[0] := m[keys[0]]], m, keys[1..])
  }

  lemma {:induction false} GatheredAll(members: map<string, Json>, m: map<string, Json>, keys: seq<string>)
    requires forall k :: k in keys ==> k in m
    requires forall k :: k in members ==> k in m && m[k] == members[k]
    requires forall k :: k in m ==> k in members || k in keys
    ensures Gathered(members, m, keys) == m
    decreases |keys|
  {
    if |keys| == 0 {
      assert members.Keys == m.Keys;
    } else {
      assert keys == [keys[0]] + keys[1..];
      GatheredAll(members[keys[0] := m[keys[0]]], m, keys[1..]);
    }
  }

  lemma {:induction false} MembersReadBack(quote: Quote, unquote: Unquote, j: Json, keys: seq<string>, first: bool,
                                           done: map<string, Json>, x: string)
    requires Reads(quote, unquote) && j.Obj? && WellFormed(j) && forall k :: k in keys ==> k in j.members
    ensures ReadMembers(unquote, Members(quote, j, keys, first) + ("}" + x), first, done)
         == Some((Obj(Gathered(done, j.members, keys)), x))
    decreases j, 0, |keys|
  {
    if |keys| == 0 {
      assert Members(quote, j, keys, first) + ("}" + x) == "}" + x;
      Split("}", x);
    } else {
      var key, value := keys[0], j.members[keys[0]];
      var tail := Members(quote, j, keys[1..], false) + ("}" + x);
      var text := Canon(quote, value) + tail;
      MembersUnfold(quote, j, keys, first, "}" + x);
      MembersFollow(quote, j, keys[1..], x);
      CanonReadsBack(quote, unquote, value, tail);
      MembersReadBack(quote, unquote, j, keys[1..], false, done[key := value], x);
      assert ReadsOne(quote, unquote, key, ":" + text);
      CommaThen(first, quote(key) + (":" + text));
      Split(":", text);
    }
  }

  /** The canonical text of a value reads back as the value, with nothing left over. */
  lemma CanonIsJson(quote: Quote, unquote: Unquote, j: Json)
    requires Reads(quote, unquote) && WellFormed(j)
    ensures ReadValue(unquote, Canon(quote, j)) == Some((j, ""))
  {
    CanonReadsBack(quote, unquote, j, "");
    assert Canon(quote, j) + "" == Canon(quote, j);
  }
}
