/** Python's `repr()` of a string and of a list of strings, and the evaluation
    of such a literal back into the value it denotes.

    `repr(s)` quotes with `'` unless `s` contains `'` and no `"`; it escapes
    the quote in use and the backslash, writes tab, newline and carriage
    return as `\t`, `\n`, `\r`, other characters that are not printable as
    `\xNN`, `\uNNNN` or `\UNNNNNNNN`, and keeps every printable character. */
module PyRepr {
  import opened Wrappers
  import opened Strings

  /** `ch.isprintable()`: exact for ASCII and Latin-1; above U+00FF only the
      whitespace characters count as unprintable here. */
  predicate IsPrintable(c: char) {
    if c < '\U{80}' then ' ' <= c < '\U{7F}'
    else if c <= '\U{FF}' then '\U{A0}' < c && c != '\U{AD}'
    else !IsSpace(c)
  }

  /** The quote character `repr` chooses for `s`. */
  function QuoteFor(s: string): (q: char)
    ensures q == '\'' || q == '"'
  {
    if '\'' in s && '"' !in s then '"' else '\''
  }

  /** How `repr` writes one character inside quotes `q`. */
  function EscapeChar(c: char, q: char): (r: string)
    ensures |r| >= 1
  {
    if c == q || c == '\\' then ['\\', c]
    else if c == '\t' then "\\t"
    else if c == '\n' then "\\n"
    else if c == '\r' then "\\r"
    else if IsPrintable(c) then [c]
    else if c as int < 0x100 then "\\x" + ToHex(c as int, 2)
    else if c as int < 0x10000 then "\\u" + ToHex(c as int, 4)
    else "\\U" + ToHex(c as int, 8)
  }

  function EscapeAll(s: string, q: char): string {
    if s == "" then "" else EscapeChar(s[0], q) + EscapeAll(s[1..], q)
  }

  /** `repr(s)` */
  function StrRepr(s: string): string {
    var q := QuoteFor(s);
    [q] + EscapeAll(s, q) + [q]
  }

  /** `repr(xs)` (equally `str(xs)`) for a list of strings. */
  function StrListRepr(xs: seq<string>): string {
    "[" + Join(", ", ReprEach(xs)) + "]"
  }

  function ReprEach(xs: seq<string>): (r: seq<string>)
    ensures |r| == |xs|
  {
    if xs == [] then [] else [StrRepr(xs[0])] + ReprEach(xs[1..])
  }

  // ---------------------------------------------------------------------
  // Evaluating the literals back

  /** The character a `\x`, `\u` or `\U` escape with these digits denotes. */
  function CodePointChar(digits: string): Option<char> {
    match FromHex(digits)
    case Some(n) =>
      if n < 0xD800 || 0xE000 <= n < 0x110000 then Some(n as char) else None
    case None => None
  }

  /** Reads the body of a literal opened with quote `q` up to and including
      its closing quote: the string it denotes, and the text after it. */
  function ReadQuoted(t: string, q: char): (r: Option<(string, string)>)
    ensures r.Some? ==> |r.value.1| < |t|
    decreases |t|
  {
    if t == "" then None
    else if t[0] == q then Some(("", t[1..]))
    else if t[0] != '\\' then Prepend(t[0], ReadQuoted(t[1..], q))
    else match EscapeAt(t)
      case Some((c, n)) => Prepend(c, ReadQuoted(t[n..], q))
      case None => None
  }

  /** The character that the escape sequence opening `t` denotes, and the
      length of that sequence. */
  function EscapeAt(t: string): (r: Option<(char, nat)>)
    ensures r.Some? ==> 2 <= r.value.1 <= |t|
  {
    if |t| < 2 then None
    else
      var e := t[1];
      if e == '\\' || e == '\'' || e == '"' then Some((e, 2))
      else if e == 't' then Some(('\t', 2))
      else if e == 'n' then Some(('\n', 2))
      else if e == 'r' then Some(('\r', 2))
      else
        var width := if e == 'x' then 2 else if e == 'u' then 4 else if e == 'U' then 8 else 0;
        if width == 0 || |t| < 2 + width then None
        else match CodePointChar(t[2..2 + width])
          case Some(c) => Some((c, 2 + width))
          case None => None
  }

  function Prepend(c: char, r: Option<(string, string)>): (p: Option<(string, string)>)
    ensures p.Some? <==> r.Some?
    ensures p.Some? ==> p.value.1 == r.value.1
  {
    match r
    case Some((s, rest)) => Some(([c] + s, rest))
    case None => None
  }

  /** Reads one string literal at the start of `t`: its value and the rest. */
  function ReadLiteral(t: string): (r: Option<(string, string)>)
    ensures r.Some? ==> |r.value.1| < |t|
  {
    if |t| >= 1 && (t[0] == '\'' || t[0] == '"') then ReadQuoted(t[1..], t[0]) else None
  }

  /** The value of a string literal in the form `repr` writes. */
  function EvalStrLiteral(t: string): Option<string> {
    match ReadLiteral(t)
    case Some((s, "")) => Some(s)
    case _ => None
  }

  /** The value of a list-of-strings literal in the form `repr` writes. */
  function EvalStrListLiteral(t: string): Option<seq<string>> {
    if t == "[]" then Some([])
    else if |t| >= 1 && t[0] == '[' then ReadItems(t[1..]) else None
  }

  /** Reads `lit, lit, ..., lit]` to the end of `t`. */
  function ReadItems(t: string): Option<seq<string>>
    decreases |t|
  {
    match ReadLiteral(t)
    case Some((s, rest)) =>
      if rest == "]" then Some([s])
      else if |rest| >= 2 && rest[..2] == ", " then
        match ReadItems(rest[2..])
        case Some(more) => Some([s] + more)
        case None => None
      else None
    case None => None
  }

  // ---------------------------------------------------------------------
  // Round trip

  /** A `\xNN`, `\uNNNN` or `\UNNNNNNNN` escape denotes its character. */
  lemma HexEscapeAt(c: char, e: char, width: nat, rest: string)
    requires (e, width) in {('x', 2), ('u', 4), ('U', 8)}
    requires c as int < Pow16(width)
    ensures EscapeAt(['\\', e] + ToHex(c as int, width) + rest) == Some((c, 2 + width))
  {
    var t := ['\\', e] + ToHex(c as int, width) + rest;
    FromHexToHex(c as int, width);
    assert t[2..2 + width] == ToHex(c as int, width);
    assert CodePointChar(t[2..2 + width]) == Some(c);
  }

  /** A character written by `repr` reads back as itself. */
  lemma EscapeCharThenRead(c: char, q: char, rest: string)
    requires q == '\'' || q == '"'
    ensures ReadQuoted(EscapeChar(c, q) + rest, q) == Prepend(c, ReadQuoted(rest, q))
  {
    var t := EscapeChar(c, q) + rest;
    if c == q || c == '\\' || c == '\t' || c == '\n' || c == '\r' {
      assert t[0] == '\\' && EscapeAt(t) == Some((c, 2));
      assert t[2..] == rest;
    } else if IsPrintable(c) {
      assert t[0] == c && t[1..] == rest;
    } else {
      var e := if c as int < 0x100 then 'x' else if c as int < 0x10000 then 'u' else 'U';
      var width := if c as int < 0x100 then 2 else if c as int < 0x10000 then 4 else 8;
      assert Pow16(2) == 256 && Pow16(4) == 65536 && Pow16(8) == 4294967296;
      HexEscapeAt(c, e, width, rest);
      assert t == ['\\', e] + ToHex(c as int, width) + rest;
      assert t[2 + width..] == rest;
    }
  }

  /** The escaped text of `s`, its closing quote and more text read back as
      `s` and that text. */
  lemma {:induction false} EscapeAllThenRead(s: string, q: char, rest: string)
    requires q == '\'' || q == '"'
    ensures ReadQuoted(EscapeAll(s, q) + [q] + rest, q) == Some((s, rest))
    decreases |s|
  {
    if s == "" {
      assert EscapeAll(s, q) + [q] + rest == [q] + rest;
      assert ([q] + rest)[1..] == rest;
    } else {
      var tail := EscapeAll(s[1..], q) + [q] + rest;
      EscapeAllCons(s, q, rest);
      EscapeCharThenRead(s[0], q, tail);
      EscapeAllThenRead(s[1..], q, rest);
      assert [s[0]] + s[1..] == s;
    }
  }

  lemma EscapeAllCons(s: string, q: char, rest: string)
    requires s != ""
    ensures EscapeAll(s, q) + [q] + rest == EscapeChar(s[0], q) + (EscapeAll(s[1..], q) + [q] + rest)
  {
  }

  /** A literal followed by more text reads back as its value and that text. */
  lemma ReadLiteralOfRepr(s: string, rest: string)
    ensures ReadLiteral(StrRepr(s) + rest) == Some((s, rest))
  {
    var q := QuoteFor(s);
    var body := EscapeAll(s, q) + [q] + rest;
    EscapeAllThenRead(s, q, rest);
    ReadLiteralQuoted(q, body);
    StrReprThen(s, rest);
  }

  lemma StrReprThen(s: string, rest: string)
    ensures StrRepr(s) + rest == [QuoteFor(s)] + (EscapeAll(s, QuoteFor(s)) + [QuoteFor(s)] + rest)
  {
  }

  /** A literal opened with `q` is read by `ReadQuoted`. */
  lemma ReadLiteralQuoted(q: char, body: string)
    requires q == '\'' || q == '"'
    ensures ReadLiteral([q] + body) == ReadQuoted(body, q)
  {
    assert ([q] + body)[1..] == body;
  }

  /** Evaluating `repr(s)` gives back `s`. */
  lemma StrReprRoundTrip(s: string)
    ensures EvalStrLiteral(StrRepr(s)) == Some(s)
  {
    ReadLiteralOfRepr(s, "");
    assert StrRepr(s) + "" == StrRepr(s);
  }

  /** The items of a list literal, its closing bracket included, read back
      as the list. */
  lemma {:induction false} ReadItemsOfRepr(xs: seq<string>)
    requires xs != []
    ensures ReadItems(Join(", ", ReprEach(xs)) + "]") == Some(xs)
    decreases |xs|
  {
    var r := ReprEach(xs);
    assert r[0] == StrRepr(xs[0]);
    if |xs| == 1 {
      assert Join(", ", r) == r[0];
      ReadItemsLast(xs[0]);
      assert xs == [xs[0]];
    } else {
      assert r[1..] == ReprEach(xs[1..]);
      var tail := Join(", ", r[1..]) + "]";
      JoinCons(", ", r, "]");
      ReadItemsOfRepr(xs[1..]);
      ReadItemsCons(xs[0], tail);
      assert [xs[0]] + xs[1..] == xs;
    }
  }

  lemma ReadItemsLast(x: string)
    ensures ReadItems(StrRepr(x) + "]") == Some([x])
  {
    ReadLiteralOfRepr(x, "]");
  }

  lemma ReadItemsCons(x: string, tail: string)
    ensures ReadItems(StrRepr(x) + (", " + tail)) ==
      if ReadItems(tail).Some? then Some([x] + ReadItems(tail).value) else None
  {
    ReadLiteralOfRepr(x, ", " + tail);
    assert (", " + tail)[..2] == ", " && (", " + tail)[2..] == tail;
  }

  lemma JoinCons(sep: string, parts: seq<string>, end: string)
    requires |parts| > 1
    ensures Join(sep, parts) + end == parts[0] + (sep + (Join(sep, parts[1..]) + end))
  {
  }

  /** Evaluating `repr(xs)` of a list of strings gives back `xs`. */
  lemma StrListReprRoundTrip(xs: seq<string>)
    ensures EvalStrListLiteral(StrListRepr(xs)) == Some(xs)
  {
    if xs != [] {
      var body := Join(", ", ReprEach(xs)) + "]";
      ReadItemsOfRepr(xs);
      StrReprLength(xs[0]);
      JoinHeadLength(", ", ReprEach(xs));
      assert StrListRepr(xs) == "[" + body;
      assert ("[" + body)[1..] == body;
    }
  }

  lemma StrReprLength(s: string)
    ensures |StrRepr(s)| >= 2
  {
  }

  lemma JoinHeadLength(sep: string, parts: seq<string>)
    requires parts != []
    ensures |Join(sep, parts)| >= |parts[0]|
  {
  }
}
