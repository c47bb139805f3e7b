/** Decoding what `json.dumps` writes gives the value back:
    `json.loads(json.dumps(v, indent=n)) == v` for every value whose dicts
    have distinct keys. */
module JsonRoundTrip {
  import opened Wrappers
  import opened Strings
  import opened Json

  /** What may follow a value in the encoder's output. */
  predicate Delimited(rest: string) {
    rest == "" || rest[0] == ',' || rest[0] == ']' || rest[0] == '}' || IsJsonSpace(rest[0])
  }

  // ---------------------------------------------------------------------
  // Whitespace

  lemma {:induction false} SkipWsOver(ws: string, t: string)
    requires AllJsonSpace(ws)
    requires t == "" || !IsJsonSpace(t[0])
    ensures SkipWs(ws + t) == t
  {
    if ws == "" {
      assert ws + t == t;
    } else {
      assert (ws + t)[1..] == ws[1..] + t;
      SkipWsOver(ws[1..], t);
    }
  }

  lemma {:induction false} RepeatSpace(ind: string, n: nat)
    requires AllJsonSpace(ind)
    ensures AllJsonSpace(Repeat(ind, n))
  {
    if n > 0 {
      RepeatSpace(ind, n - 1);
      var r := Repeat(ind, n);
      assert r == ind + Repeat(ind, n - 1);
      forall i | 0 <= i < |r| ensures IsJsonSpace(r[i]) {
        if i >= |ind| {
          assert r[i] == Repeat(ind, n - 1)[i - |ind|];
        }
      }
    }
  }

  lemma NewlineIndentSpace(ind: string, level: nat)
    requires AllJsonSpace(ind)
    ensures AllJsonSpace(NewlineIndent(ind, level))
  {
    RepeatSpace(ind, level);
    var r := NewlineIndent(ind, level);
    forall i | 0 <= i < |r| ensures IsJsonSpace(r[i]) {
      if i > 0 {
        assert r[i] == Repeat(ind, level)[i - 1];
      }
    }
  }

  /** An encoding starts with a character that is neither whitespace nor a
      closing bracket. */
  lemma EncodeStart(v: Value, ind: string, level: nat)
    ensures var e := Encode(v, ind, level);
      e != "" && !IsJsonSpace(e[0]) && e[0] != ']' && e[0] != '}'
  {
    var e := Encode(v, ind, level);
    match v
    case Int(i) =>
      if i >= 0 {
        assert IsDigit(NatToDecimal(i)[0]);
      }
    case _ =>
  }

  lemma EncodeItemsStart(v: Value, ind: string, level: nat, k: nat)
    requires v.Array? && k < |v.items|
    ensures var e := EncodeItems(v, ind, level, k);
      e != "" && !IsJsonSpace(e[0]) && e[0] != ']'
  {
    var first := Encode(v.items[k], ind, level);
    EncodeStart(v.items[k], ind, level);
    var e := EncodeItems(v, ind, level, k);
    var tail := if k + 1 == |v.items| then "" else "," + NewlineIndent(ind, level) + EncodeItems(v, ind, level, k + 1);
    assert e == first + tail;
    assert e[0] == first[0];
  }

  lemma EncodeEntriesStart(v: Value, ind: string, level: nat, k: nat)
    requires v.Object? && k < |v.entries|
    ensures var e := EncodeEntries(v, ind, level, k);
      e != "" && e[0] == '"'
  {
    var first := EncodeEntry(v.entries[k].0, Encode(v.entries[k].1, ind, level));
    var e := EncodeEntries(v, ind, level, k);
    var tail := if k + 1 == |v.entries| then "" else "," + NewlineIndent(ind, level) + EncodeEntries(v, ind, level, k + 1);
    assert e == first + tail;
    assert e[0] == first[0];
  }

  // ---------------------------------------------------------------------
  // Integers

  lemma {:induction false} DigitRunOver(d: string, rest: string)
    requires forall i | 0 <= i < |d| :: IsDigit(d[i])
    requires rest == "" || !IsDigit(rest[0])
    ensures DigitRun(d + rest) == |d|
  {
    if d == "" {
      assert d + rest == rest;
    } else {
      assert (d + rest)[1..] == d[1..] + rest;
      DigitRunOver(d[1..], rest);
    }
  }

  lemma NatThenParse(m: nat, rest: string)
    requires Delimited(rest)
    ensures var d := NatToDecimal(m);
      var n := if d[0] == '0' then 1 else DigitRun(d + rest);
      n == |d| && (d + rest)[..n] == d && (d + rest)[n..] == rest
  {
    var d := NatToDecimal(m);
    DigitRunOver(d, rest);
    assert (d + rest)[..|d|] == d;
    assert (d + rest)[|d|..] == rest;
  }

  lemma IntThenParse(i: int, rest: string)
    requires Delimited(rest)
    ensures ParseNumber(IntToDecimal(i) + rest) == Some((Int(i), rest))
  {
    if i < 0 {
      NegThenParse(i, rest);
    } else {
      NatDigitsThenParse(i, rest);
    }
  }

  /** The digits of `m`, then a delimiter, parse as `m`. */
  lemma NatDigitsThenParse(m: nat, rest: string)
    requires Delimited(rest)
    ensures ParseNumber(IntToDecimal(m) + rest) == Some((Int(m), rest))
  {
    var d := NatToDecimal(m);
    NatThenParse(m, rest);
    DecimalOfNat(m);
    var u := d + rest;
    assert u[0] == d[0];
    assert !IsFloatTail(rest);
    ParseNumberParts(u, false, u, |d|, m);
  }

  /** A minus sign and the digits of `-i`, then a delimiter, parse as `i`. */
  lemma NegThenParse(i: int, rest: string)
    requires Delimited(rest) && i < 0
    ensures ParseNumber(IntToDecimal(i) + rest) == Some((Int(i), rest))
  {
    var m: nat := -i;
    var d := NatToDecimal(m);
    NatThenParse(m, rest);
    DecimalOfNat(m);
    var u := d + rest;
    assert u[0] == d[0];
    assert !IsFloatTail(rest);
    var t := IntToDecimal(i) + rest;
    assert t[0] == '-' && t[1..] == u;
    ParseNumberParts(t, true, u, |d|, m);
  }

  /** `ParseNumber` step by step: the sign, the digits and what follows. */
  lemma ParseNumberParts(t: string, neg: bool, u: string, n: nat, magnitude: nat)
    requires neg == (t != "" && t[0] == '-')
    requires u == (if neg then t[1..] else t)
    requires u != "" && IsDigit(u[0])
    requires n == (if u[0] == '0' then 1 else DigitRun(u))
    requires DecimalValue(u[..n]) == magnitude
    requires !IsFloatTail(u[n..])
    ensures ParseNumber(t) == Some((Int(if neg then -(magnitude as int) else magnitude), u[n..]))
  {
  }

  // ---------------------------------------------------------------------
  // Strings

  lemma Hex4Of(t: string, i: nat, n: nat)
    requires n < Pow16(4)
    requires i + 4 <= |t| && t[i..i + 4] == ToHex(n, 4)
    ensures Hex4(t, i) == Some(n)
  {
    FromHexToHex(n, 4);
  }

  /** A text opening with an escape that denotes `c` reads as `c`, then on. */
  lemma EscapeStep(t: string, c: char, n: nat)
    requires t != "" && t[0] == '\\' && JsonEscapeAt(t) == Some((c, n))
    ensures ParseStringBody(t) == Cons(c, ParseStringBody(t[n..]))
  {
  }

  lemma ShortEscapeThenParse(e: char, c: char, rest: string)
    requires (e, c) in {('"', '"'), ('\\', '\\'), ('n', '\n'), ('r', '\r'), ('t', '\t'), ('b', '\U{8}'), ('f', '\U{C}')}
    ensures ParseStringBody(['\\', e] + rest) == Cons(c, ParseStringBody(rest))
  {
    var t := ['\\', e] + rest;
    assert JsonEscapeAt(t) == Some((c, 2));
    EscapeStep(t, c, 2);
    assert t[2..] == rest;
  }

  lemma PlainThenParse(c: char, rest: string)
    requires c != '"' && c != '\\' && c >= ' '
    ensures ParseStringBody([c] + rest) == Cons(c, ParseStringBody(rest))
  {
    assert ([c] + rest)[1..] == rest;
  }

  lemma BmpEscapeThenParse(c: char, rest: string)
    requires c as int < 0x10000
    ensures ParseStringBody("\\u" + ToHex(c as int, 4) + rest) == Cons(c, ParseStringBody(rest))
  {
    var t := "\\u" + ToHex(c as int, 4) + rest;
    BmpEscapeAt(c, rest);
    EscapeStep(t, c, 6);
    assert t[6..] == rest;
  }

  /** `\uXXXX` with the four digits of a character outside the surrogates. */
  lemma BmpEscapeAt(c: char, rest: string)
    requires c as int < 0x10000
    ensures JsonEscapeAt("\\u" + ToHex(c as int, 4) + rest) == Some((c, 6))
  {
    var t := "\\u" + ToHex(c as int, 4) + rest;
    assert Pow16(4) == 0x10000;
    Hex4Of(t, 2, c as int);
  }

  lemma AstralEscapeThenParse(c: char, rest: string)
    requires c as int >= 0x10000
    ensures ParseStringBody("\\u" + ToHex(HighSurrogate(c), 4) + "\\u" + ToHex(LowSurrogate(c), 4) + rest)
        == Cons(c, ParseStringBody(rest))
  {
    var t := "\\u" + ToHex(HighSurrogate(c), 4) + "\\u" + ToHex(LowSurrogate(c), 4) + rest;
    AstralEscapeAt(c, rest);
    EscapeStep(t, c, 12);
    assert t[12..] == rest;
  }

  /** A surrogate pair of `\uXXXX` escapes denotes the character it encodes. */
  lemma AstralEscapeAt(c: char, rest: string)
    requires c as int >= 0x10000
    ensures JsonEscapeAt("\\u" + ToHex(HighSurrogate(c), 4) + "\\u" + ToHex(LowSurrogate(c), 4) + rest)
        == Some((c, 12))
  {
    var hi, lo := HighSurrogate(c), LowSurrogate(c);
    var t := "\\u" + ToHex(hi, 4) + "\\u" + ToHex(lo, 4) + rest;
    assert Pow16(4) == 0x10000;
    Hex4Of(t, 2, hi);
    assert t[6] == '\\' && t[7] == 'u';
    Hex4Of(t, 8, lo);
    SurrogatesCombine(c);
  }

  lemma EscapeJsonCharThenParse(c: char, rest: string)
    ensures ParseStringBody(EscapeJsonChar(c) + rest) == Cons(c, ParseStringBody(rest))
  {
    if c == '"' {
      ShortEscapeThenParse('"', c, rest);
    } else if c == '\\' {
      ShortEscapeThenParse('\\', c, rest);
    } else if c == '\n' {
      ShortEscapeThenParse('n', c, rest);
    } else if c == '\r' {
      ShortEscapeThenParse('r', c, rest);
    } else if c == '\t' {
      ShortEscapeThenParse('t', c, rest);
    } else if c == '\U{8}' {
      ShortEscapeThenParse('b', c, rest);
    } else if c == '\U{C}' {
      ShortEscapeThenParse('f', c, rest);
    } else if ' ' <= c <= '~' {
      PlainThenParse(c, rest);
    } else if c as int < 0x10000 {
      BmpEscapeThenParse(c, rest);
    } else {
      AstralEscapeThenParse(c, rest);
    }
  }

  lemma {:induction false} EscapeJsonThenParse(s: string, rest: string)
    ensures ParseStringBody(EscapeJson(s) + "\"" + rest) == Some((s, rest))
  {
    if s == "" {
      assert EscapeJson(s) + "\"" + rest == "\"" + rest;
      assert ("\"" + rest)[1..] == rest;
    } else {
      EscapeJsonCons(s, rest);
      EscapeJsonCharThenParse(s[0], EscapeJson(s[1..]) + "\"" + rest);
      EscapeJsonThenParse(s[1..], rest);
      assert [s[0]] + s[1..] == s;
    }
  }

  lemma EscapeJsonCons(s: string, rest: string)
    requires s != ""
    ensures EscapeJson(s) + "\"" + rest == EscapeJsonChar(s[0]) + (EscapeJson(s[1..]) + "\"" + rest)
  {
  }

  /** A JSON string literal decodes to the string it encodes. */
  lemma StringThenParse(s: string, rest: string)
    ensures ParseValue(EncodeString(s) + rest) == Some((Str(s), rest))
  {
    var t := EncodeString(s) + rest;
    assert t[1..] == EscapeJson(s) + "\"" + rest;
    EscapeJsonThenParse(s, rest);
  }

  // ---------------------------------------------------------------------
  // Dicts

  lemma {:induction false} InsertFresh(entries: seq<(string, Value)>, k: string, x: Value)
    requires forall i | 0 <= i < |entries| :: entries[i].0 != k
    ensures Insert(entries, k, x) == entries + [(k, x)]
  {
    if entries != [] {
      InsertFresh(entries[1..], k, x);
      assert [entries[0]] + (entries[1..] + [(k, x)]) == entries + [(k, x)];
    }
  }

  // ---------------------------------------------------------------------
  // One step of the decoder each

  lemma ValueArrayStep(t: string)
    requires t != "" && t[0] == '['
    ensures ParseValue(t) == ParseArray(t[1..])
  {
  }

  lemma ValueObjectStep(t: string)
    requires t != "" && t[0] == '{'
    ensures ParseValue(t) == ParseObject(t[1..])
  {
  }

  lemma ArrayEmptyStep(rest: string)
    ensures ParseArray("]" + rest) == Some((Array([]), rest))
  {
    assert ("]" + rest)[1..] == rest;
  }

  lemma ObjectEmptyStep(rest: string)
    ensures ParseObject("}" + rest) == Some((Object([]), rest))
  {
    assert ("}" + rest)[1..] == rest;
  }

  lemma ArrayStep(open: string, body: string)
    requires AllJsonSpace(open) && body != "" && !IsJsonSpace(body[0]) && body[0] != ']'
    ensures ParseArray(open + body) == ParseElements(body, [])
  {
    SkipWsOver(open, body);
  }

  lemma ObjectStep(open: string, body: string)
    requires AllJsonSpace(open) && body != "" && !IsJsonSpace(body[0]) && body[0] != '}'
    ensures ParseObject(open + body) == ParseMembers(body, [])
  {
    SkipWsOver(open, body);
  }

  lemma ValueNumberStep(t: string)
    requires t != "" && (t[0] == '-' || IsDigit(t[0]))
    ensures ParseValue(t) == ParseNumber(t)
  {
    assert t[0] != 'n' && t[0] != 't' && t[0] != 'f';
    if |t| >= 4 {
      assert t[..4][0] == t[0];
      assert t[..4] != "null" && t[..4] != "true";
    }
    if |t| >= 5 {
      assert t[..5][0] == t[0];
      assert t[..5] != "false";
    }
  }

  lemma ElementsStep(t: string, acc: seq<Value>, x: Value, rest: string)
    requires ParseValue(t) == Some((x, rest))
    ensures ParseElements(t, acc) == ElementsAfter(SkipWs(rest), acc + [x])
  {
  }

  lemma ElementsAfterLast(acc: seq<Value>, close: string, rest: string)
    requires AllJsonSpace(close)
    ensures ElementsAfter(SkipWs(close + "]" + rest), acc) == Some((Array(acc), rest))
  {
    assert close + "]" + rest == close + ("]" + rest);
    SkipWsOver(close, "]" + rest);
    assert ("]" + rest)[1..] == rest;
  }

  lemma ElementsAfterMore(acc: seq<Value>, nl: string, more: string)
    requires AllJsonSpace(nl) && more != "" && !IsJsonSpace(more[0])
    ensures ElementsAfter(SkipWs("," + nl + more), acc) == ParseElements(more, acc)
  {
    assert SkipWs("," + nl + more) == "," + nl + more;
    assert ("," + nl + more)[1..] == nl + more;
    SkipWsOver(nl, more);
  }

  /** The key of one dict entry and its colon. */
  lemma EntryKeyStep(key: string, enc: string, tail: string, acc: seq<(string, Value)>)
    requires enc != "" && !IsJsonSpace(enc[0])
    ensures ParseMembers(EncodeEntry(key, enc) + tail, acc) == ParseMemberValue(enc + tail, key, acc)
  {
    var u := ":" + (" " + (enc + tail));
    var body := EscapeJson(key) + "\"" + u;
    EncodeEntryThen(key, enc, tail);
    EscapeJsonThenParse(key, u);
    ColonThen(enc + tail);
    assert ("\"" + body)[1..] == body;
  }

  lemma EncodeEntryThen(key: string, enc: string, tail: string)
    ensures EncodeEntry(key, enc) + tail == "\"" + (EscapeJson(key) + "\"" + (":" + (" " + (enc + tail))))
  {
  }

  /** The colon after a key and the space after it. */
  lemma ColonThen(t: string)
    requires t != "" && !IsJsonSpace(t[0])
    ensures var u := ":" + (" " + t);
      SkipWs(u) == u && u[0] == ':' && SkipWs(u[1..]) == t
  {
    var u := ":" + (" " + t);
    assert u[1..] == " " + t;
    SkipWsOver(" ", t);
  }

  lemma MemberValueStep(t: string, key: string, acc: seq<(string, Value)>, x: Value, rest: string)
    requires ParseValue(t) == Some((x, rest))
    ensures ParseMemberValue(t, key, acc) == MembersAfter(SkipWs(rest), Insert(acc, key, x))
  {
  }

  lemma MembersAfterLast(acc: seq<(string, Value)>, close: string, rest: string)
    requires AllJsonSpace(close)
    ensures MembersAfter(SkipWs(close + "}" + rest), acc) == Some((Object(acc), rest))
  {
    assert close + "}" + rest == close + ("}" + rest);
    SkipWsOver(close, "}" + rest);
    assert ("}" + rest)[1..] == rest;
  }

  lemma MembersAfterMore(acc: seq<(string, Value)>, nl: string, more: string)
    requires AllJsonSpace(nl) && more != "" && !IsJsonSpace(more[0])
    ensures MembersAfter(SkipWs("," + nl + more), acc) == ParseMembers(more, acc)
  {
    assert SkipWs("," + nl + more) == "," + nl + more;
    assert ("," + nl + more)[1..] == nl + more;
    SkipWsOver(nl, more);
  }

  // ---------------------------------------------------------------------
  // Values

  lemma ScalarThenParse(v: Value, ind: string, level: nat, rest: string)
    requires !v.Array? && !v.Object? && Delimited(rest)
    ensures ParseValue(Encode(v, ind, level) + rest) == Some((v, rest))
  {
    var t := Encode(v, ind, level) + rest;
    match v
    case Null =>
      assert t[..4] == "null" && t[4..] == rest;
    case Bool(b) =>
      if b {
        assert t[..4] == "true" && t[4..] == rest;
      } else {
        assert t[..5] == "false" && t[5..] == rest;
      }
    case Int(i) =>
      IntThenParse(i, rest);
      if i >= 0 {
        assert IsDigit(NatToDecimal(i)[0]);
      }
      assert t[0] == IntToDecimal(i)[0];
      ValueNumberStep(t);
    case Str(s) =>
      StringThenParse(s, rest);
  }

  lemma {:induction false} EncodeThenParse(v: Value, ind: string, level: nat, rest: string)
    requires WellFormed(v) && AllJsonSpace(ind) && Delimited(rest)
    ensures ParseValue(Encode(v, ind, level) + rest) == Some((v, rest))
    decreases v, 2, 0
  {
    if v.Array? {
      ArrayThenParse(v, ind, level, rest);
    } else if v.Object? {
      ObjectThenParse(v, ind, level, rest);
    } else {
      ScalarThenParse(v, ind, level, rest);
    }
  }

  lemma EncodeArrayShape(v: Value, ind: string, level: nat, rest: string)
    requires v.Array? && v.items != []
    ensures Encode(v, ind, level) + rest ==
      "[" + (NewlineIndent(ind, level + 1) + (EncodeItems(v, ind, level + 1, 0) + (NewlineIndent(ind, level) + "]" + rest)))
  {
  }

  lemma EncodeObjectShape(v: Value, ind: string, level: nat, rest: string)
    requires v.Object? && v.entries != []
    ensures Encode(v, ind, level) + rest ==
      "{" + (NewlineIndent(ind, level + 1) + (EncodeEntries(v, ind, level + 1, 0) + (NewlineIndent(ind, level) + "}" + rest)))
  {
  }

  /** What follows the opening bracket still starts with the first element. */
  lemma InnerStart(body: string, close: string, rest: string)
    requires body != "" && !IsJsonSpace(body[0]) && body[0] != ']'
    ensures var inner := body + (close + "]" + rest);
      inner != "" && !IsJsonSpace(inner[0]) && inner[0] != ']'
  {
    var inner := body + (close + "]" + rest);
    assert inner[0] == body[0];
  }

  lemma InnerStartObject(body: string, close: string, rest: string)
    requires body != "" && body[0] == '"'
    ensures var inner := body + (close + "}" + rest);
      inner != "" && !IsJsonSpace(inner[0]) && inner[0] != '}'
  {
    var inner := body + (close + "}" + rest);
    assert inner[0] == body[0];
  }

  lemma ArrayOpenStep(open: string, inner: string)
    requires AllJsonSpace(open) && inner != "" && !IsJsonSpace(inner[0]) && inner[0] != ']'
    ensures ParseValue("[" + (open + inner)) == ParseElements(inner, [])
  {
    ValueArrayStep("[" + (open + inner));
    assert ("[" + (open + inner))[1..] == open + inner;
    ArrayStep(open, inner);
  }

  lemma ObjectOpenStep(open: string, inner: string)
    requires AllJsonSpace(open) && inner != "" && !IsJsonSpace(inner[0]) && inner[0] != '}'
    ensures ParseValue("{" + (open + inner)) == ParseMembers(inner, [])
  {
    ValueObjectStep("{" + (open + inner));
    assert ("{" + (open + inner))[1..] == open + inner;
    ObjectStep(open, inner);
  }

  lemma EmptyArrayThenParse(ind: string, level: nat, rest: string)
    ensures ParseValue(Encode(Array([]), ind, level) + rest) == Some((Array([]), rest))
  {
    var t := "[]" + rest;
    assert Encode(Array([]), ind, level) == "[]";
    ValueArrayStep(t);
    assert t[1..] == "]" + rest;
    ArrayEmptyStep(rest);
  }

  lemma EmptyObjectThenParse(ind: string, level: nat, rest: string)
    ensures ParseValue(Encode(Object([]), ind, level) + rest) == Some((Object([]), rest))
  {
    var t := "{}" + rest;
    assert Encode(Object([]), ind, level) == "{}";
    ValueObjectStep(t);
    assert t[1..] == "}" + rest;
    ObjectEmptyStep(rest);
  }

  lemma {:induction false} ArrayThenParse(v: Value, ind: string, level: nat, rest: string)
    requires v.Array? && WellFormed(v) && AllJsonSpace(ind)
    ensures ParseValue(Encode(v, ind, level) + rest) == Some((v, rest))
    decreases v, 1, 0
  {
    if v.items == [] {
      EmptyArrayThenParse(ind, level, rest);
    } else {
      var body := EncodeItems(v, ind, level + 1, 0);
      var close := NewlineIndent(ind, level);
      var open := NewlineIndent(ind, level + 1);
      EncodeArrayShape(v, ind, level, rest);
      EncodeItemsStart(v, ind, level + 1, 0);
      InnerStart(body, close, rest);
      NewlineIndentSpace(ind, level + 1);
      ArrayOpenStep(open, body + (close + "]" + rest));
      NewlineIndentSpace(ind, level);
      ItemsThenParse(v, ind, level + 1, 0, close, rest);
      assert v.items[..0] == [];
    }
  }

  lemma {:induction false} ObjectThenParse(v: Value, ind: string, level: nat, rest: string)
    requires v.Object? && WellFormed(v) && AllJsonSpace(ind)
    ensures ParseValue(Encode(v, ind, level) + rest) == Some((v, rest))
    decreases v, 1, 0
  {
    if v.entries == [] {
      EmptyObjectThenParse(ind, level, rest);
    } else {
      var body := EncodeEntries(v, ind, level + 1, 0);
      var close := NewlineIndent(ind, level);
      var open := NewlineIndent(ind, level + 1);
      EncodeObjectShape(v, ind, level, rest);
      EncodeEntriesStart(v, ind, level + 1, 0);
      InnerStartObject(body, close, rest);
      NewlineIndentSpace(ind, level + 1);
      ObjectOpenStep(open, body + (close + "}" + rest));
      NewlineIndentSpace(ind, level);
      EntriesThenParse(v, ind, level + 1, 0, close, rest);
      assert v.entries[..0] == [];
    }
  }

  lemma EncodeItemsShape(v: Value, ind: string, level: nat, k: nat, after: string)
    requires v.Array? && k < |v.items|
    ensures EncodeItems(v, ind, level, k) + after ==
      Encode(v.items[k], ind, level) +
      if k + 1 == |v.items| then after
      else "," + NewlineIndent(ind, level) + (EncodeItems(v, ind, level, k + 1) + after)
  {
  }

  /** One element and the text after it. */
  lemma {:induction false} ItemThenParse(v: Value, ind: string, level: nat, k: nat, tail: string)
    requires v.Array? && k < |v.items| && WellFormed(v)
    requires AllJsonSpace(ind) && Delimited(tail)
    ensures ParseElements(Encode(v.items[k], ind, level) + tail, v.items[..k])
      == ElementsAfter(SkipWs(tail), v.items[..k + 1])
    decreases v, 0, 0
  {
    var x := v.items[k];
    assert WellFormed(x);
    assert v.items[..k] + [x] == v.items[..k + 1];
    EncodeThenParse(x, ind, level, tail);
    ElementsStep(Encode(x, ind, level) + tail, v.items[..k], x, tail);
  }

  lemma {:induction false} ItemsThenParse(v: Value, ind: string, level: nat, k: nat, close: string, rest: string)
    requires v.Array? && k < |v.items| && WellFormed(v)
    requires AllJsonSpace(ind) && AllJsonSpace(close)
    ensures ParseElements(EncodeItems(v, ind, level, k) + (close + "]" + rest), v.items[..k]) == Some((v, rest))
    decreases v, 0, |v.items| - k
  {
    var after := close + "]" + rest;
    EncodeItemsShape(v, ind, level, k, after);
    if k + 1 == |v.items| {
      ItemThenParse(v, ind, level, k, after);
      assert v.items[..k + 1] == v.items;
      ElementsAfterLast(v.items, close, rest);
    } else {
      var more := EncodeItems(v, ind, level, k + 1) + after;
      var nl := NewlineIndent(ind, level);
      ItemThenParse(v, ind, level, k, "," + nl + more);
      EncodeItemsStart(v, ind, level, k + 1);
      assert more[0] == EncodeItems(v, ind, level, k + 1)[0];
      NewlineIndentSpace(ind, level);
      ElementsAfterMore(v.items[..k + 1], nl, more);
      ItemsThenParse(v, ind, level, k + 1, close, rest);
    }
  }

  lemma EncodeEntriesShape(v: Value, ind: string, level: nat, k: nat, after: string)
    requires v.Object? && k < |v.entries|
    ensures EncodeEntries(v, ind, level, k) + after ==
      EncodeEntry(v.entries[k].0, Encode(v.entries[k].1, ind, level)) +
      if k + 1 == |v.entries| then after
      else "," + NewlineIndent(ind, level) + (EncodeEntries(v, ind, level, k + 1) + after)
  {
  }

  /** One entry, whose key is new, and the text after it. */
  lemma {:induction false} EntryThenParse(v: Value, ind: string, level: nat, k: nat, tail: string)
    requires v.Object? && k < |v.entries| && WellFormed(v)
    requires AllJsonSpace(ind) && Delimited(tail)
    ensures ParseMembers(EncodeEntry(v.entries[k].0, Encode(v.entries[k].1, ind, level)) + tail, v.entries[..k])
      == MembersAfter(SkipWs(tail), v.entries[..k + 1])
    decreases v, 0, 0
  {
    var key := v.entries[k].0;
    var x := v.entries[k].1;
    assert WellFormed(x);
    assert v.entries[..k] + [(key, x)] == v.entries[..k + 1];
    InsertFresh(v.entries[..k], key, x);
    var enc := Encode(x, ind, level);
    EncodeStart(x, ind, level);
    EntryKeyStep(key, enc, tail, v.entries[..k]);
    EncodeThenParse(x, ind, level, tail);
    MemberValueStep(enc + tail, key, v.entries[..k], x, tail);
  }

  lemma {:induction false} EntriesThenParse(v: Value, ind: string, level: nat, k: nat, close: string, rest: string)
    requires v.Object? && k < |v.entries| && WellFormed(v)
    requires AllJsonSpace(ind) && AllJsonSpace(close)
    ensures ParseMembers(EncodeEntries(v, ind, level, k) + (close + "}" + rest), v.entries[..k]) == Some((v, rest))
    decreases v, 0, |v.entries| - k
  {
    var after := close + "}" + rest;
    EncodeEntriesShape(v, ind, level, k, after);
    if k + 1 == |v.entries| {
      EntryThenParse(v, ind, level, k, after);
      assert v.entries[..k + 1] == v.entries;
      MembersAfterLast(v.entries, close, rest);
    } else {
      var more := EncodeEntries(v, ind, level, k + 1) + after;
      var nl := NewlineIndent(ind, level);
      EntryThenParse(v, ind, level, k, "," + nl + more);
      EncodeEntriesStart(v, ind, level, k + 1);
      assert more[0] == EncodeEntries(v, ind, level, k + 1)[0];
      NewlineIndentSpace(ind, level);
      MembersAfterMore(v.entries[..k + 1], nl, more);
      EntriesThenParse(v, ind, level, k + 1, close, rest);
    }
  }

  lemma LoadsStep(t: string, v: Value)
    requires SkipWs(t) == t && ParseValue(t) == Some((v, ""))
    ensures Loads(t) == Some(v)
  {
  }

  /** `json.loads(json.dumps(v, indent=n)) == v` */
  lemma DumpsLoads(v: Value, indent: int)
    requires WellFormed(v)
    ensures Loads(Dumps(v, indent)) == Some(v)
  {
    var width := if indent < 0 then 0 else indent;
    var ind := Repeat(" ", width);
    RepeatSpace(" ", width);
    var e := Encode(v, ind, 0);
    assert Dumps(v, indent) == e;
    EncodeStart(v, ind, 0);
    EncodeThenParse(v, ind, 0, "");
    assert e + "" == e;
    LoadsStep(e, v);
  }
}
