/** JSON values as Python's `json` module produces and consumes them.

    `Dumps` is `json.dumps(value, indent=n)` with the default `ensure_ascii`
    and the separators `','` and `': '` that an indent selects; `Loads` is
    `json.loads` for the documents that decode to null, booleans, integers,
    strings, lists and dicts. `Repr` and `PyStr` are Python's `repr()` and
    `str()` of the decoded value. */
module Json {
  import opened Wrappers
  import opened Strings
  import PyRepr

  /** A decoded JSON document: `None`, `bool`, `int`, `str`, `list` or `dict`.
      A dict keeps its keys in insertion order. */
  datatype Value =
    | Null
    | Bool(b: bool)
    | Int(i: int)
    | Str(s: string)
    | Array(items: seq<Value>)
    | Object(entries: seq<(string, Value)>)

  /** Python truthiness of the decoded value. */
  predicate Truthy(v: Value) {
    match v
    case Null => false
    case Bool(b) => b
    case Int(i) => i != 0
    case Str(s) => s != ""
    case Array(items) => items != []
    case Object(entries) => entries != []
  }

  /** A `list[str]` as a JSON array of strings. */
  function StrArray(xs: seq<string>): (v: Value)
    ensures v.Array? && |v.items| == |xs|
    ensures forall i :: 0 <= i < |xs| ==> v.items[i] == Str(xs[i])
  {
    Array(seq(|xs|, i requires 0 <= i < |xs| => Str(xs[i])))
  }

  /** Every dict in the value has distinct keys, as a Python dict does. */
  predicate WellFormed(v: Value) {
    match v
    case Array(items) => forall i | 0 <= i < |items| :: WellFormed(items[i])
    case Object(entries) =>
      (forall i, j | 0 <= i < j < |entries| :: entries[i].0 != entries[j].0) &&
      (forall i | 0 <= i < |entries| :: WellFormed(entries[i].1))
    case _ => true
  }

  // ---------------------------------------------------------------------
  // Decimal integers

  function DigitChar(d: nat): (c: char)
    requires d < 10
    ensures IsDigit(c) && c as int - '0' as int == d
  {
    (('0' as int) + d) as char
  }

  /** `str(n)` for a natural number. */
  function NatToDecimal(n: nat): (r: string)
    ensures |r| >= 1
    ensures forall i | 0 <= i < |r| :: IsDigit(r[i])
    ensures r[0] == '0' ==> r == "0"
  {
    if n < 10 then [DigitChar(n)] else NatToDecimal(n / 10) + [DigitChar(n % 10)]
  }

  /** `str(i)` for an integer. */
  function IntToDecimal(i: int): string {
    if i < 0 then "-" + NatToDecimal(-i) else NatToDecimal(i)
  }

  /** The number a string of decimal digits denotes. */
  function DecimalValue(s: string): nat
    requires forall i | 0 <= i < |s| :: IsDigit(s[i])
  {
    if s == "" then 0
    else
      assert IsDigit(s[|s| - 1]);
      10 * DecimalValue(s[..|s| - 1]) + (s[|s| - 1] as int - '0' as int)
  }

  lemma {:induction false} DecimalOfNat(n: nat)
    ensures DecimalValue(NatToDecimal(n)) == n
  {
    if n >= 10 {
      var r := NatToDecimal(n);
      assert r[..|r| - 1] == NatToDecimal(n / 10);
      DecimalOfNat(n / 10);
    }
  }

  /** Length of the run of digits that starts `s`. */
  function DigitRun(s: string): (n: nat)
    ensures n <= |s|
    ensures forall i | 0 <= i < n :: IsDigit(s[i])
    ensures n < |s| ==> !IsDigit(s[n])
  {
    if s != "" && IsDigit(s[0]) then 1 + DigitRun(s[1..]) else 0
  }

  // ---------------------------------------------------------------------
  // Python's repr() and str() of a decoded value

  /** `repr(v)` */
  function Repr(v: Value): string
    decreases v, 1, 0
  {
    match v
    case Null => "None"
    case Bool(b) => if b then "True" else "False"
    case Int(i) => IntToDecimal(i)
    case Str(s) => PyRepr.StrRepr(s)
    case Array(items) => "[" + ReprItems(v, 0) + "]"
    case Object(entries) => "{" + ReprEntries(v, 0) + "}"
  }

  /** `", ".join(repr(x) for x in items[k:])` */
  function ReprItems(v: Value, k: nat): string
    requires v.Array? && k <= |v.items|
    decreases v, 0, |v.items| - k
  {
    if k == |v.items| then ""
    else (if k == 0 then "" else ", ") + Repr(v.items[k]) + ReprItems(v, k + 1)
  }

  /** `", ".join(repr(key) + ": " + repr(value) for the entries from k on)` */
  function ReprEntries(v: Value, k: nat): string
    requires v.Object? && k <= |v.entries|
    decreases v, 0, |v.entries| - k
  {
    if k == |v.entries| then ""
    else
      (if k == 0 then "" else ", ") + PyRepr.StrRepr(v.entries[k].0) + ": " + Repr(v.entries[k].1)
      + ReprEntries(v, k + 1)
  }

  /** `str(v)`: a string is itself, anything else its repr. */
  function PyStr(v: Value): (r: string)
    ensures v.Str? ==> r == v.s
  {
    if v.Str? then v.s else Repr(v)
  }

  // ---------------------------------------------------------------------
  // Encoding: json.dumps(value, indent=n)

  /** How `json.dumps` writes one character of a string (ASCII output). */
  function EscapeJsonChar(c: char): (r: string)
    ensures |r| >= 1
  {
    if c == '"' then "\\\""
    else if c == '\\' then "\\\\"
    else if c == '\n' then "\\n"
    else if c == '\r' then "\\r"
    else if c == '\t' then "\\t"
    else if c == '\U{8}' then "\\b"
    else if c == '\U{C}' then "\\f"
    else if ' ' <= c <= '~' then [c]
    else if c as int < 0x10000 then "\\u" + ToHex(c as int, 4)
    else "\\u" + ToHex(HighSurrogate(c), 4) + "\\u" + ToHex(LowSurrogate(c), 4)
  }

  /** The UTF-16 surrogate pair of a character outside the basic plane. */
  function HighSurrogate(c: char): (h: nat)
    requires c as int >= 0x10000
    ensures 0xD800 <= h < 0xDC00
  {
    0xD800 + (c as int - 0x10000) / 0x400
  }

  function LowSurrogate(c: char): (l: nat)
    requires c as int >= 0x10000
    ensures 0xDC00 <= l < 0xE000
  {
    0xDC00 + (c as int - 0x10000) % 0x400
  }

  /** The pair decodes back to the character. */
  lemma SurrogatesCombine(c: char)
    requires c as int >= 0x10000
    ensures 0x10000 + (HighSurrogate(c) - 0xD800) * 0x400 + (LowSurrogate(c) - 0xDC00) == c as int
  {
  }

  function EscapeJson(s: string): string {
    if s == "" then "" else EscapeJsonChar(s[0]) + EscapeJson(s[1..])
  }

  function EncodeString(s: string): string {
    "\"" + EscapeJson(s) + "\""
  }

  function Repeat(s: string, n: nat): string {
    if n == 0 then "" else s + Repeat(s, n - 1)
  }

  /** A line break followed by `level` copies of the indent. */
  function NewlineIndent(ind: string, level: nat): string {
    "\n" + Repeat(ind, level)
  }

  /** The text of `v` at nesting depth `level` with indent string `ind`. */
  function Encode(v: Value, ind: string, level: nat): string
    decreases v, 1, 0
  {
    match v
    case Null => "null"
    case Bool(b) => if b then "true" else "false"
    case Int(i) => IntToDecimal(i)
    case Str(s) => EncodeString(s)
    case Array(items) =>
      if items == [] then "[]"
      else "[" + NewlineIndent(ind, level + 1) + EncodeItems(v, ind, level + 1, 0) + NewlineIndent(ind, level) + "]"
    case Object(entries) =>
      if entries == [] then "{}"
      else "{" + NewlineIndent(ind, level + 1) + EncodeEntries(v, ind, level + 1, 0) + NewlineIndent(ind, level) + "}"
  }

  /** Items `k` onwards, separated by a comma and a new indented line. */
  function EncodeItems(v: Value, ind: string, level: nat, k: nat): string
    requires v.Array? && k < |v.items|
    decreases v, 0, |v.items| - k
  {
    Encode(v.items[k], ind, level)
    + if k + 1 == |v.items| then "" else "," + NewlineIndent(ind, level) + EncodeItems(v, ind, level, k + 1)
  }

  function EncodeEntry(key: string, value: string): string {
    EncodeString(key) + ": " + value
  }

  /** Entries `k` onwards, separated by a comma and a new indented line. */
  function EncodeEntries(v: Value, ind: string, level: nat, k: nat): string
    requires v.Object? && k < |v.entries|
    decreases v, 0, |v.entries| - k
  {
    EncodeEntry(v.entries[k].0, Encode(v.entries[k].1, ind, level))
    + if k + 1 == |v.entries| then "" else "," + NewlineIndent(ind, level) + EncodeEntries(v, ind, level, k + 1)
  }

  /** `json.dumps(v, indent=indent)`; an indent of zero or less still breaks lines. */
  function Dumps(v: Value, indent: int): string {
    Encode(v, Repeat(" ", if indent < 0 then 0 else indent), 0)
  }

  // ---------------------------------------------------------------------
  // Decoding: json.loads(text)

  predicate IsJsonSpace(c: char) {
    c == ' ' || c == '\t' || c == '\n' || c == '\r'
  }

  predicate AllJsonSpace(s: string) {
    forall i | 0 <= i < |s| :: IsJsonSpace(s[i])
  }

  function SkipWs(t: string): (r: string)
    ensures |r| <= |t| && r == t[|t| - |r|..]
    ensures r == "" || !IsJsonSpace(r[0])
  {
    if t != "" && IsJsonSpace(t[0]) then SkipWs(t[1..]) else t
  }

  /** The four hexadecimal digits at `t[i..i + 4]`. */
  function Hex4(t: string, i: nat): Option<nat> {
    if |t| >= i + 4 then FromHex(t[i..i + 4]) else None
  }

  /** The character a `\uXXXX` escape (or a surrogate pair of them) at the
      start of `t` denotes, and how many characters it takes. */
  function UnicodeEscape(t: string): (r: Option<(char, nat)>)
    ensures r.Some? ==> 2 <= r.value.1 <= |t|
  {
    match Hex4(t, 2)
    case None => None
    case Some(hi) =>
      if 0xD800 <= hi < 0xDC00 then
        if |t| >= 8 && t[6] == '\\' && t[7] == 'u' then
          match Hex4(t, 8)
          case Some(lo) =>
            if 0xDC00 <= lo < 0xE000 && 0x10000 + (hi - 0xD800) * 0x400 + (lo - 0xDC00) < 0x110000 then
              Some(((0x10000 + (hi - 0xD800) * 0x400 + (lo - 0xDC00)) as char, 12))
            else None
          case None => None
        else None
      else if 0xDC00 <= hi < 0xE000 then None
      else if hi < 0x110000 then Some((hi as char, 6))
      else None
  }

  function Cons(c: char, r: Option<(string, string)>): (p: Option<(string, string)>)
    ensures p.Some? <==> r.Some?
    ensures p.Some? ==> p.value == ([c] + r.value.0, r.value.1)
  {
    match r
    case Some((s, rest)) => Some(([c] + s, rest))
    case None => None
  }

  /** A string body after its opening quote: the string and the text after
      the closing quote. Control characters are refused, as in strict mode. */
  function ParseStringBody(t: string): (r: Option<(string, string)>)
    ensures r.Some? ==> |r.value.1| < |t|
    decreases |t|
  {
    if t == "" then None
    else if t[0] == '"' then Some(("", t[1..]))
    else if t[0] == '\\' then
      match JsonEscapeAt(t)
      case Some((c, n)) => Cons(c, ParseStringBody(t[n..]))
      case None => None
    else if t[0] < ' ' then None
    else Cons(t[0], ParseStringBody(t[1..]))
  }

  /** The character that the backslash escape opening `t` denotes, and how
      many characters the escape takes. */
  function JsonEscapeAt(t: string): (r: Option<(char, nat)>)
    ensures r.Some? ==> 2 <= r.value.1 <= |t|
  {
    if |t| < 2 then None
    else
      var e := t[1];
      if e == '"' || e == '\\' || e == '/' then Some((e, 2))
      else if e == 'b' then Some(('\U{8}', 2))
      else if e == 'f' then Some(('\U{C}', 2))
      else if e == 'n' then Some(('\n', 2))
      else if e == 'r' then Some(('\r', 2))
      else if e == 't' then Some(('\t', 2))
      else if e == 'u' then UnicodeEscape(t)
      else None
  }


  /** A fraction or an exponent follows the integer part: the number is a float. */
  predicate IsFloatTail(s: string) {
    (|s| >= 2 && s[0] == '.' && IsDigit(s[1])) ||
    (|s| >= 2 && (s[0] == 'e' || s[0] == 'E') &&
      (IsDigit(s[1]) || (|s| >= 3 && (s[1] == '+' || s[1] == '-') && IsDigit(s[2]))))
  }

  /** An integer `-?(0|[1-9][0-9]*)` at the start of `t`. */
  function ParseNumber(t: string): (r: Option<(Value, string)>)
    ensures r.Some? ==> |r.value.1| < |t|
  {
    var neg := t != "" && t[0] == '-';
    var u := if neg then t[1..] else t;
    if u == "" || !IsDigit(u[0]) then None
    else
      var n := if u[0] == '0' then 1 else DigitRun(u);
      var magnitude := DecimalValue(u[..n]);
      if IsFloatTail(u[n..]) then None
      else Some((Int(if neg then -(magnitude as int) else magnitude), u[n..]))
  }

  /** One value at the start of `t` (no leading whitespace): the value and
      the text after it. */
  function ParseValue(t: string): (r: Option<(Value, string)>)
    ensures r.Some? ==> |r.value.1| < |t|
    decreases |t|, 1
  {
    if t == "" then None
    else if t[0] == '"' then
      match ParseStringBody(t[1..])
      case Some((s, rest)) => Some((Str(s), rest))
      case None => None
    else if t[0] == '[' then ParseArray(t[1..])
    else if t[0] == '{' then ParseObject(t[1..])
    else if |t| >= 4 && t[..4] == "null" then Some((Null, t[4..]))
    else if |t| >= 4 && t[..4] == "true" then Some((Bool(true), t[4..]))
    else if |t| >= 5 && t[..5] == "false" then Some((Bool(false), t[5..]))
    else ParseNumber(t)
  }

  /** A list after its `[`. */
  function ParseArray(t: string): (r: Option<(Value, string)>)
    ensures r.Some? ==> |r.value.1| < |t|
    decreases |t|, 3
  {
    var u := SkipWs(t);
    if u != "" && u[0] == ']' then Some((Array([]), u[1..]))
    else ParseElements(u, [])
  }

  /** The elements of a list from one that starts `t`, after the elements `acc`. */
  function ParseElements(t: string, acc: seq<Value>): (r: Option<(Value, string)>)
    ensures r.Some? ==> |r.value.1| < |t|
    decreases |t|, 2
  {
    match ParseValue(t)
    case None => None
    case Some((x, rest)) => ElementsAfter(SkipWs(rest), acc + [x])
  }

  /** After an element: `]` closes the list, `,` leads to the next element. */
  function ElementsAfter(u: string, acc: seq<Value>): (r: Option<(Value, string)>)
    ensures r.Some? ==> |r.value.1| < |u|
    decreases |u|, 0
  {
    if u != "" && u[0] == ']' then Some((Array(acc), u[1..]))
    else if u != "" && u[0] == ',' then ParseElements(SkipWs(u[1..]), acc)
    else None
  }

  /** `d[k] = x`: a new key goes last, an existing key keeps its place. */
  function Insert(entries: seq<(string, Value)>, k: string, x: Value): (r: seq<(string, Value)>)
    ensures |r| >= |entries|
    ensures forall i | 0 <= i < |entries| && entries[i].0 != k :: r[i] == entries[i]
  {
    if entries == [] then [(k, x)]
    else if entries[0].0 == k then [(k, x)] + entries[1..]
    else [entries[0]] + Insert(entries[1..], k, x)
  }

  /** A dict after its `{`. */
  function ParseObject(t: string): (r: Option<(Value, string)>)
    ensures r.Some? ==> |r.value.1| < |t|
    decreases |t|, 3
  {
    var u := SkipWs(t);
    if u != "" && u[0] == '}' then Some((Object([]), u[1..]))
    else ParseMembers(u, [])
  }

  /** The members of a dict from one that starts `t`, after the entries `acc`. */
  function ParseMembers(t: string, acc: seq<(string, Value)>): (r: Option<(Value, string)>)
    ensures r.Some? ==> |r.value.1| < |t|
    decreases |t|, 2
  {
    if t == "" || t[0] != '"' then None
    else match ParseStringBody(t[1..])
      case None => None
      case Some((key, r1)) =>
        var u := SkipWs(r1);
        if u == "" || u[0] != ':' then None
        else ParseMemberValue(SkipWs(u[1..]), key, acc)
  }

  /** The value of the member `key`, after its colon. */
  function ParseMemberValue(t: string, key: string, acc: seq<(string, Value)>): (r: Option<(Value, string)>)
    ensures r.Some? ==> |r.value.1| < |t|
    decreases |t|, 2
  {
    match ParseValue(t)
    case None => None
    case Some((x, rest)) => MembersAfter(SkipWs(rest), Insert(acc, key, x))
  }

  /** After a member: `}` closes the dict, `,` leads to the next member. */
  function MembersAfter(u: string, acc: seq<(string, Value)>): (r: Option<(Value, string)>)
    ensures r.Some? ==> |r.value.1| < |u|
    decreases |u|, 0
  {
    if u != "" && u[0] == '}' then Some((Object(acc), u[1..]))
    else if u != "" && u[0] == ',' then ParseMembers(SkipWs(u[1..]), acc)
    else None
  }

  /** `json.loads(t)`: one value, with only whitespace around it. */
  function Loads(t: string): Option<Value> {
    match ParseValue(SkipWs(t))
    case Some((v, rest)) => if SkipWs(rest) == "" then Some(v) else None
    case None => None
  }
}
