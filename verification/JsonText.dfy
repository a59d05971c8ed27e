/** JSON text: what `JSON.stringify` writes, and reading it back. */
module JsonText {
  import opened Values
  import opened Wrappers

  /** How a number is written and read, and the length of a list it can be, if any. */
  datatype Numbers<!N(!new)> = Numbers(show: N -> string, read: string -> Option<N>, length: N -> Option<nat>) {
    ghost predicate Faithful() {
      forall n {:trigger show(n)} :: IsToken(show(n)) && read(show(n)) == Some(n)
    }
  }

  predicate NumberChar(c: char) {
    '0' <= c <= '9' || c == '-' || c == '+' || c == '.' || c == 'e' || c == 'E'
  }

  predicate IsToken(s: string) {
    s != [] && forall i | 0 <= i < |s| :: NumberChar(s[i])
  }

  // ----- quoted text -----

  function HexDigit(d: nat): char
    requires d < 16
  {
    if d < 10 then '0' + d as char else 'a' + (d - 10) as char
  }

  function HexValue(c: char): Option<nat> {
    if '0' <= c <= '9' then Some((c - '0') as nat)
    else if 'a' <= c <= 'f' then Some((c - 'a') as nat + 10)
    else None
  }

  function EscapeChar(c: char): (r: string)
    ensures r != []
  {
    if c == '"' then "\\\""
    else if c == '\\' then "\\\\"
    else if c as int == 8 then "\\b"
    else if c as int == 9 then "\\t"
    else if c as int == 10 then "\\n"
    else if c as int == 12 then "\\f"
    else if c as int == 13 then "\\r"
    else if c as int < 32 then "\\u00" + [HexDigit(c as int / 16), HexDigit(c as int % 16)]
    else [c]
  }

  /** The inside of a string and the closing quote. */
  function Escaped(s: string): (r: string)
    ensures r != []
  {
    if s == [] then "\"" else EscapeChar(s[0]) + Escaped(s[1..])
  }

  /** One character, escaped or not, and what follows it. */
  function ReadChar(t: string): Option<(char, string)>
    requires t != []
  {
    if t[0] != '\\' then Some((t[0], t[1..]))
    else if |t| < 2 then None
    else if t[1] == '"' || t[1] == '\\' then Some((t[1], t[2..]))
    else if t[1] == 'b' then Some((8 as char, t[2..]))
    else if t[1] == 't' then Some((9 as char, t[2..]))
    else if t[1] == 'n' then Some((10 as char, t[2..]))
    else if t[1] == 'f' then Some((12 as char, t[2..]))
    else if t[1] == 'r' then Some((13 as char, t[2..]))
    else if |t| < 6 || t[1..4] != "u00" then None
    else
      match (HexValue(t[4]), HexValue(t[5]))
      case (Some(h), Some(l)) => Some(((16 * h + l) as char, t[6..]))
      case _ => None
  }

  /** The text up to the closing quote, and what follows the quote. */
  function ReadQuoted(t: string): (r: Option<(string, string)>)
    ensures r.Some? ==> |r.value.1| < |t|
    decreases |t|
  {
    if t == [] then None
    else if t[0] == '"' then Some(([], t[1..]))
    else
      match ReadChar(t)
      case None => None
      case Some((c, rest)) =>
        match ReadQuoted(rest)
        case None => None
        case Some((s, after)) => Some(([c] + s, after))
  }

  lemma EscapedCharRead(c: char, rest: string)
    ensures ReadChar(EscapeChar(c) + rest) == Some((c, rest)) && (EscapeChar(c) + rest)[0] != '"'
  {
    var t := EscapeChar(c) + rest;
    var n := c as int;
    if c == '"' || c == '\\' || n == 8 || n == 9 || n == 10 || n == 12 || n == 13 {
      assert t[2..] == rest;
    } else if n < 32 {
      assert t[1..4] == "u00" && t[6..] == rest;
      assert HexValue(t[4]) == Some(n / 16) && HexValue(t[5]) == Some(n % 16);
    } else {
      assert t[1..] == rest;
    }
  }

  lemma {:induction false} EscapedRead(s: string, rest: string)
    ensures ReadQuoted(Escaped(s) + rest) == Some((s, rest))
  {
    if s == [] {
      assert (Escaped(s) + rest)[1..] == rest;
    } else {
      EscapedRead(s[1..], rest);
      EscapedCharRead(s[0], Escaped(s[1..]) + rest);
      assert Escaped(s) + rest == EscapeChar(s[0]) + (Escaped(s[1..]) + rest);
      assert s == [s[0]] + s[1..];
    }
  }

  // ----- values -----

  function Opening(kind: Kind): char {
    if kind == Array then '[' else '{'
  }

  function Closing(kind: Kind): char {
    if kind == Array then ']' else '}'
  }

  /** The text of what JSON can carry. */
  function Stringify<B, N(!new)>(numbers: Numbers<N>, v: Value<B, N>): string
    decreases v, 1
  {
    match v
    case Null => "null"
    case Bool(b) => if b then "true" else "false"
    case Number(n) => numbers.show(n)
    case Text(s) => "\"" + Escaped(s)
    case Container(kind, entries) =>
      [Opening(kind)] + if entries == [] then [Closing(kind)] else Entries(numbers, kind, entries, 0)
    case _ => ""
  }

  /** The entries from `i` on, and the closing bracket. */
  function Entries<B, N(!new)>(numbers: Numbers<N>, kind: Kind, entries: seq<Entry<B, N>>, i: nat): string
    requires i < |entries|
    decreases entries, 0, |entries| - i
  {
    KeyText(kind, entries[i].key)
    + Stringify(numbers, entries[i].value)
    + if i + 1 == |entries| then [Closing(kind)] else "," + Entries(numbers, kind, entries, i + 1)
  }

  /** How far a number goes. */
  function Span(t: string): (n: nat)
    ensures n <= |t|
  {
    if t == [] || !NumberChar(t[0]) then 0 else 1 + Span(t[1..])
  }

  /** A value at the start of the text, and what follows it. */
  function ReadValue<B, N(!new)>(numbers: Numbers<N>, t: string): (r: Option<(Value<B, N>, string)>)
    ensures r.Some? ==> |r.value.1| < |t|
    decreases |t|, 0
  {
    if t == [] then None
    else if "null" <= t then Some((Null, t[4..]))
    else if "true" <= t then Some((Bool(true), t[4..]))
    else if "false" <= t then Some((Bool(false), t[5..]))
    else if t[0] == '"' then
      match ReadQuoted(t[1..])
      case Some((s, rest)) => Some((Text(s), rest))
      case None => None
    else if t[0] == '[' then ReadContainer(numbers, Array, t[1..])
    else if t[0] == '{' then ReadContainer(numbers, Record, t[1..])
    else if Span(t) == 0 then None
    else
      match numbers.read(t[..Span(t)])
      case Some(n) => Some((Number(n), t[Span(t)..]))
      case None => None
  }

  function ReadContainer<B, N(!new)>(numbers: Numbers<N>, kind: Kind, t: string): (r: Option<(Value<B, N>, string)>)
    ensures r.Some? ==> |r.value.1| < |t|
    decreases |t|, 2
  {
    if t == [] then None
    else if t[0] == Closing(kind) then Some((Container(kind, []), t[1..]))
    else
      match ReadEntries(numbers, kind, t, 0)
      case Some((entries, rest)) => Some((Container(kind, entries), rest))
      case None => None
  }

  /** The key of entry `i`: written in a record, counted in an array. */
  function ReadKey(kind: Kind, t: string, i: nat): (r: Option<(string, string)>)
    ensures r.Some? ==> |r.value.1| <= |t|
  {
    if kind == Array then Some((Print(i), t))
    else if t == [] || t[0] != '"' then None
    else
      match ReadQuoted(t[1..])
      case Some((key, rest)) => if rest != [] && rest[0] == ':' then Some((key, rest[1..])) else None
      case None => None
  }

  function ReadEntries<B, N(!new)>(numbers: Numbers<N>, kind: Kind, t: string, i: nat)
    : (r: Option<(seq<Entry<B, N>>, string)>)
    ensures r.Some? ==> |r.value.1| < |t|
    decreases |t|, 1
  {
    match ReadKey(kind, t, i)
    case None => None
    case Some((key, afterKey)) =>
      match ReadValue<B, N>(numbers, afterKey)
      case None => None
      case Some((value, rest)) =>
        if rest == [] then None
        else if rest[0] == Closing(kind) then Some(([Entry(key, value)], rest[1..]))
        else if rest[0] != ',' then None
        else
          match ReadEntries<B, N>(numbers, kind, rest[1..], i + 1)
          case None => None
          case Some((entries, after)) => Some(([Entry(key, value)] + entries, after))
  }

  /** `JSON.parse` of text as `JSON.stringify` writes it; anything else is refused. */
  function ParseJson<B, N(!new)>(numbers: Numbers<N>, t: string): Option<Value<B, N>> {
    match ReadValue<B, N>(numbers, t)
    case Some((v, rest)) => if rest == [] then Some(v) else None
    case None => None
  }

  // ----- reading what was written -----

  /** What may follow a value: nothing, or punctuation. */
  predicate Ends(rest: string) {
    rest != [] ==> rest[0] == ',' || rest[0] == ']' || rest[0] == '}'
  }

  /** A value never starts with a closing bracket. */
  predicate Starts(s: string) {
    s != [] && s[0] != ']' && s[0] != '}'
  }

  lemma {:induction false} SpanOfToken(s: string, rest: string)
    requires (forall i | 0 <= i < |s| :: NumberChar(s[i])) && Ends(rest)
    ensures Span(s + rest) == |s|
  {
    if s == [] {
      assert s + rest == rest;
    } else {
      SpanOfToken(s[1..], rest);
      assert (s + rest)[1..] == s[1..] + rest;
    }
  }

  lemma WordRead<B, N(!new)>(numbers: Numbers<N>, rest: string)
    ensures ReadValue<B, N>(numbers, "null" + rest) == Some((Null, rest))
    ensures ReadValue<B, N>(numbers, "true" + rest) == Some((Bool(true), rest))
    ensures ReadValue<B, N>(numbers, "false" + rest) == Some((Bool(false), rest))
  {
    var n, t, f := "null" + rest, "true" + rest, "false" + rest;
    assert n[0] == 'n' && t[0] == 't' && f[0] == 'f';
    assert "null" <= n && n[4..] == rest;
    assert "true" <= t && t[4..] == rest;
    assert "false" <= f && f[5..] == rest;
  }

  lemma {:induction false} ValueRead<B, N(!new)>(numbers: Numbers<N>, v: Value<B, N>, rest: string)
    requires numbers.Faithful() && IsJson(v) && Ends(rest)
    ensures ReadValue(numbers, Stringify(numbers, v) + rest) == Some((v, rest))
    ensures Starts(Stringify(numbers, v))
    decreases v, 1
  {
    match v
    case Number(n) => NumberRead<B, N>(numbers, n, rest);
    case Text(s) => TextRead<B, N>(numbers, s, rest);
    case Container(kind, entries) => ContainerRead(numbers, kind, entries, rest);
    case _ => WordRead<B, N>(numbers, rest);
  }

  lemma TextRead<B, N(!new)>(numbers: Numbers<N>, s: string, rest: string)
    ensures ReadValue<B, N>(numbers, "\"" + Escaped(s) + rest) == Some((Text(s), rest))
  {
    var quoted := Escaped(s);
    EscapedRead(s, rest);
    QuoteRead<B, N>(numbers, quoted, s, rest);
  }

  lemma QuoteRead<B, N(!new)>(numbers: Numbers<N>, quoted: string, s: string, rest: string)
    requires ReadQuoted(quoted + rest) == Some((s, rest))
    ensures ReadValue<B, N>(numbers, "\"" + quoted + rest) == Some((Text(s), rest))
  {
    var t := "\"" + quoted + rest;
    assert t[0] == '"' && t[1..] == quoted + rest;
  }

  lemma NumberRead<B, N(!new)>(numbers: Numbers<N>, n: N, rest: string)
    requires numbers.Faithful() && Ends(rest)
    ensures ReadValue<B, N>(numbers, numbers.show(n) + rest) == Some((Number(n), rest))
    ensures NumberChar(numbers.show(n)[0])
  {
    var s := numbers.show(n);
    SpanOfToken(s, rest);
    var t := s + rest;
    assert NumberChar(s[0]) && t[0] == s[0];
    assert t[..|s|] == s && t[|s|..] == rest;
  }

  lemma ContainerRead<B, N(!new)>(numbers: Numbers<N>, kind: Kind, entries: seq<Entry<B, N>>, rest: string)
    requires numbers.Faithful() && IsJson(Container(kind, entries)) && Ends(rest)
    ensures ReadValue(numbers, Stringify(numbers, Container(kind, entries)) + rest) ==
            Some((Container(kind, entries), rest))
    decreases entries, 2
  {
    var inside := if entries == [] then [Closing(kind)] else Entries(numbers, kind, entries, 0);
    if entries == [] {
      EmptyRead<B, N>(numbers, kind, rest);
    } else {
      EntriesRead(numbers, kind, entries, 0, rest);
      assert entries[0..] == entries;
      OpenedRead(numbers, kind, inside, entries, rest);
    }
    assert Stringify(numbers, Container(kind, entries)) == [Opening(kind)] + inside;
  }

  lemma EmptyRead<B, N(!new)>(numbers: Numbers<N>, kind: Kind, rest: string)
    ensures ReadValue<B, N>(numbers, [Opening(kind)] + [Closing(kind)] + rest) == Some((Container(kind, []), rest))
  {
    BracketRead<B, N>(numbers, kind, [Closing(kind)], Container(kind, []), rest);
  }

  lemma OpenedRead<B, N(!new)>(numbers: Numbers<N>, kind: Kind, inside: string, entries: seq<Entry<B, N>>, rest: string)
    requires inside != [] && inside[0] != Closing(kind)
    requires ReadEntries(numbers, kind, inside + rest, 0) == Some((entries, rest))
    ensures ReadValue(numbers, [Opening(kind)] + inside + rest) == Some((Container(kind, entries), rest))
  {
    BracketRead(numbers, kind, inside, Container(kind, entries), rest);
  }

  lemma BracketRead<B, N(!new)>(numbers: Numbers<N>, kind: Kind, inside: string, v: Value<B, N>, rest: string)
    requires ReadContainer(numbers, kind, inside + rest) == Some((v, rest))
    ensures ReadValue(numbers, [Opening(kind)] + inside + rest) == Some((v, rest))
  {
    var all := [Opening(kind)] + inside + rest;
    assert all[0] == Opening(kind) && all[1..] == inside + rest;
    assert !("null" <= all) && !("true" <= all) && !("false" <= all);
  }

  /** What is written in front of the value of an entry. */
  function KeyText(kind: Kind, key: string): string {
    if kind == Record then "\"" + Escaped(key) + ":" else []
  }

  lemma {:induction false} EntriesRead<B, N(!new)>(numbers: Numbers<N>, kind: Kind, entries: seq<Entry<B, N>>, i: nat,
                                                   rest: string)
    requires numbers.Faithful() && i < |entries| && ProperKeys(kind, entries)
    requires forall j | 0 <= j < |entries| :: IsJson(entries[j].value)
    ensures ReadEntries(numbers, kind, Entries(numbers, kind, entries, i) + rest, i) == Some((entries[i..], rest))
    ensures Starts(Entries(numbers, kind, entries, i))
    decreases entries, 0, |entries| - i
  {
    var entry := entries[i];
    var value := Stringify(numbers, entry.value);
    EntriesText(numbers, kind, entries, i);
    if i + 1 == |entries| {
      assert entries[i..] == [entry];
      ValueRead(numbers, entry.value, [Closing(kind)] + rest);
      LastEntryRead(numbers, kind, i, entry, value, rest);
    } else {
      var tail := Entries(numbers, kind, entries, i + 1);
      ValueRead(numbers, entry.value, "," + tail + rest);
      EntriesRead(numbers, kind, entries, i + 1, rest);
      NextEntryRead(numbers, kind, i, entry, value, tail, entries[i + 1..], rest);
    }
  }

  lemma EntriesText<B, N(!new)>(numbers: Numbers<N>, kind: Kind, entries: seq<Entry<B, N>>, i: nat)
    requires i < |entries| && ProperKeys(kind, entries)
    ensures kind == Array ==> entries[i].key == Print(i)
    ensures entries[i..] == [entries[i]] + entries[i + 1..]
    ensures Entries(numbers, kind, entries, i) ==
            KeyText(kind, entries[i].key) + Stringify(numbers, entries[i].value)
            + if i + 1 == |entries| then [Closing(kind)] else "," + Entries(numbers, kind, entries, i + 1)
  {
  }

  lemma LastEntryRead<B, N(!new)>(numbers: Numbers<N>, kind: Kind, i: nat, entry: Entry<B, N>, value: string,
                                  rest: string)
    requires kind == Array ==> entry.key == Print(i)
    requires ReadValue(numbers, value + ([Closing(kind)] + rest)) == Some((entry.value, [Closing(kind)] + rest))
    requires Starts(value)
    ensures var t := KeyText(kind, entry.key) + value + [Closing(kind)];
            Starts(t) && ReadEntries(numbers, kind, t + rest, i) == Some(([entry], rest))
  {
    var more := [Closing(kind)];
    var t := EntryText(kind, entry.key, i, value, more, rest);
    LastEntry(numbers, kind, t, i, entry, value + (more + rest), more + rest);
    assert (more + rest)[1..] == rest;
  }

  lemma NextEntryRead<B, N(!new)>(numbers: Numbers<N>, kind: Kind, i: nat, entry: Entry<B, N>, value: string,
                                  tail: string, entries: seq<Entry<B, N>>, rest: string)
    requires kind == Array ==> entry.key == Print(i)
    requires ReadValue(numbers, value + ("," + tail + rest)) == Some((entry.value, "," + tail + rest))
    requires Starts(value) && ReadEntries(numbers, kind, tail + rest, i + 1) == Some((entries, rest))
    ensures var t := KeyText(kind, entry.key) + value + ("," + tail);
            Starts(t) && ReadEntries(numbers, kind, t + rest, i) == Some(([entry] + entries, rest))
  {
    var more := "," + tail;
    var t := EntryText(kind, entry.key, i, value, more, rest);
    Skip(',', tail, rest);
    NextEntry(numbers, kind, t, i, entry, value + (more + rest), more + rest, entries, rest);
  }

  lemma EntryText(kind: Kind, key: string, i: nat, value: string, more: string, rest: string) returns (t: string)
    requires kind == Array ==> key == Print(i)
    ensures t == KeyText(kind, key) + value + more + rest
    ensures ReadKey(kind, t, i) == Some((key, value + (more + rest)))
    ensures Starts(value) ==> Starts(KeyText(kind, key) + value + more)
  {
    t := KeyText(kind, key) + value + more + rest;
    Splice(KeyText(kind, key), value, more, rest);
    KeyRead(kind, key, i, value + (more + rest));
    if kind == Record {
      assert KeyText(kind, key)[0] == '"';
    }
  }

  lemma Skip(c: char, tail: string, rest: string)
    ensures ([c] + tail + rest)[0] == c && ([c] + tail + rest)[1..] == tail + rest
  {
  }

  lemma LastEntry<B, N(!new)>(numbers: Numbers<N>, kind: Kind, t: string, i: nat, entry: Entry<B, N>, afterKey: string,
                              rest: string)
    requires ReadKey(kind, t, i) == Some((entry.key, afterKey))
    requires ReadValue(numbers, afterKey) == Some((entry.value, rest)) && rest != [] && rest[0] == Closing(kind)
    ensures ReadEntries(numbers, kind, t, i) == Some(([entry], rest[1..]))
  {
  }

  lemma NextEntry<B, N(!new)>(numbers: Numbers<N>, kind: Kind, t: string, i: nat, entry: Entry<B, N>, afterKey: string,
                              rest: string, entries: seq<Entry<B, N>>, after: string)
    requires ReadKey(kind, t, i) == Some((entry.key, afterKey))
    requires ReadValue(numbers, afterKey) == Some((entry.value, rest)) && rest != [] && rest[0] == ','
    requires ReadEntries(numbers, kind, rest[1..], i + 1) == Some((entries, after))
    ensures ReadEntries(numbers, kind, t, i) == Some(([entry] + entries, after))
  {
  }

  lemma KeyRead(kind: Kind, key: string, i: nat, rest: string)
    requires kind == Array ==> key == Print(i)
    ensures ReadKey(kind, KeyText(kind, key) + rest, i) == Some((key, rest))
  {
    if kind == Record {
      var quoted := Escaped(key);
      EscapedRead(key, ":" + rest);
      Splice("\"", quoted, ":", rest);
      QuotedKeyRead("\"" + quoted + ":" + rest, quoted + (":" + rest), key, ":" + rest, i);
      assert (":" + rest)[1..] == rest;
    } else {
      assert [] + rest == rest;
    }
  }

  lemma QuotedKeyRead(t: string, inside: string, key: string, after: string, i: nat)
    requires t == "\"" + inside && ReadQuoted(inside) == Some((key, after)) && after != [] && after[0] == ':'
    ensures ReadKey(Record, t, i) == Some((key, after[1..]))
  {
    assert t[0] == '"' && t[1..] == inside;
  }

  lemma Splice(a: string, b: string, c: string, d: string)
    ensures a + b + c + d == a + (b + (c + d))
  {
  }

  /** Text written for a value is read back as that value. */
  lemma JsonThereAndBack<B, N(!new)>(numbers: Numbers<N>, v: Value<B, N>)
    requires numbers.Faithful() && IsJson(v)
    ensures ParseJson(numbers, Stringify(numbers, v)) == Some(v)
  {
    ValueRead(numbers, v, []);
    assert Stringify(numbers, v) + [] == Stringify(numbers, v);
  }

  /** The punctuation of JSON: brackets, commas between elements, and quoted keys with colons. */
  lemma Punctuation<B, N(!new)>(numbers: Numbers<N>, k: string, l: string, v: Value<B, N>, w: Value<B, N>)
    ensures Stringify(numbers, Container(Array, [Entry(k, v), Entry(l, w)])) ==
            "[" + Stringify(numbers, v) + "," + Stringify(numbers, w) + "]"
    ensures Stringify(numbers, Container(Record, [Entry(k, v), Entry(l, w)])) ==
            "{" + ("\"" + Escaped(k) + ":") + Stringify(numbers, v)
            + "," + ("\"" + Escaped(l) + ":") + Stringify(numbers, w) + "}"
  {
    TwoEntries(numbers, Array, [Entry(k, v), Entry(l, w)]);
    TwoEntries(numbers, Record, [Entry(k, v), Entry(l, w)]);
    NoKeys(Stringify(numbers, v), Stringify(numbers, w));
  }

  lemma NoKeys(v: string, w: string)
    ensures "[" + [] + v + "," + [] + w + "]" == "[" + v + "," + w + "]"
  {
    assert "[" + [] == "[" && "[" + v + "," + [] == "[" + v + ",";
  }

  lemma TwoEntries<B, N(!new)>(numbers: Numbers<N>, kind: Kind, entries: seq<Entry<B, N>>)
    requires |entries| == 2
    ensures Stringify(numbers, Container(kind, entries)) ==
            [Opening(kind)] + KeyText(kind, entries[0].key) + Stringify(numbers, entries[0].value)
            + "," + KeyText(kind, entries[1].key) + Stringify(numbers, entries[1].value) + [Closing(kind)]
  {
    var v, w := Stringify(numbers, entries[0].value), Stringify(numbers, entries[1].value);
    var k, l := KeyText(kind, entries[0].key), KeyText(kind, entries[1].key);
    assert Entries(numbers, kind, entries, 1) == l + w + [Closing(kind)];
    assert Entries(numbers, kind, entries, 0) == k + v + ("," + (l + w + [Closing(kind)]));
    Regrouped([Opening(kind)], k, v, ",", l, w, [Closing(kind)]);
  }

  lemma Regrouped(o: string, k: string, v: string, comma: string, l: string, w: string, c: string)
    ensures o + (k + v + (comma + (l + w + c))) == o + k + v + comma + l + w + c
  {
  }

  /** Leaves and empty brackets, and what is escaped. */
  lemma LeafText<B, N(!new)>(numbers: Numbers<N>, n: N, s: string)
    ensures Stringify<B, N>(numbers, Null) == "null" && Stringify<B, N>(numbers, Number(n)) == numbers.show(n)
    ensures Stringify<B, N>(numbers, Bool(true)) == "true" && Stringify<B, N>(numbers, Bool(false)) == "false"
    ensures Stringify<B, N>(numbers, Container(Array, [])) == "[]"
    ensures Stringify<B, N>(numbers, Container(Record, [])) == "{}"
    ensures Stringify<B, N>(numbers, Text(s)) == "\"" + Escaped(s)
  {
  }

  /** A quote is escaped, and the closing one is not. */
  lemma EscapedSample()
    ensures Escaped("x\"y") == "x\\\"y\""
  {
    assert "x\"y"[1..] == "\"y" && "\"y"[1..] == "y" && "y"[1..] == "";
    assert Escaped("y") == "y\"";
    assert Escaped("\"y") == "\\\"y\"";
  }

  // ----- integers are such numbers -----

  function Integers(): Numbers<int> {
    Numbers((i: int) => Print(i), (s: string) => ReadInt(s),
            (i: int) => if 0 <= i <= 9007199254740991 then Some(i) else None)
  }

  lemma IntegersAreFaithful()
    ensures Integers().Faithful()
  {
    forall i: int
      ensures IsToken(Print(i)) && ReadInt(Print(i)) == Some(i)
    {
      PrintRead(i);
      DigitsAreDigits(if i < 0 then -i else i);
    }
  }

  lemma {:induction false} DigitsAreDigits(n: nat)
    ensures forall k | 0 <= k < |Digits(n)| :: '0' <= Digits(n)[k] <= '9'
  {
    if n >= 10 {
      DigitsAreDigits(n / 10);
    }
  }
}
