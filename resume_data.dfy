/** The `ResumeData` record: three fields, its dict and JSON forms, `str()`
    and `repr()`. Every operation reads the record and builds a new value, so
    none of them can change it. */
module ResumeRecord {
  import opened Wrappers
  import opened Strings
  import PyRepr
  import Json
  import JsonRoundTrip

  datatype ResumeData = ResumeData(name: string, email: string, skills: seq<string>)

  // ---------------------------------------------------------------------
  // Looking into a decoded dict

  /** The keys of a dict, in insertion order (empty for anything else). */
  function Keys(d: Json.Value): (ks: seq<string>)
    ensures d.Object? ==> |ks| == |d.entries|
    ensures d.Object? ==> forall i :: 0 <= i < |ks| ==> ks[i] == d.entries[i].0
  {
    if d.Object? then KeysOf(d.entries) else []
  }

  function KeysOf(entries: seq<(string, Json.Value)>): (ks: seq<string>)
    ensures |ks| == |entries|
    ensures forall i :: 0 <= i < |ks| ==> ks[i] == entries[i].0
  {
    if entries == [] then [] else [entries[0].0] + KeysOf(entries[1..])
  }

  /** `d[key]`, or `None` when `d` is not a dict or has no such key. */
  function Lookup(d: Json.Value, key: string): (r: Option<Json.Value>)
    ensures r.Some? <==> d.Object? && key in Keys(d)
  {
    if d.Object? then LookupIn(d.entries, key) else None
  }

  function LookupIn(entries: seq<(string, Json.Value)>, key: string): (r: Option<Json.Value>)
    ensures r.Some? <==> key in KeysOf(entries)
  {
    if entries == [] then None
    else if entries[0].0 == key then Some(entries[0].1)
    else
      assert KeysOf(entries) == [entries[0].0] + KeysOf(entries[1..]);
      LookupIn(entries[1..], key)
  }

  /** The strings of an array made only of strings. */
  function StrItems(v: Json.Value): (r: Option<seq<string>>)
    ensures r.Some? ==> Json.StrArray(r.value) == v
  {
    if v.Array? && forall i :: 0 <= i < |v.items| ==> v.items[i].Str? then
      var xs := seq(|v.items|, i requires 0 <= i < |v.items| => v.items[i].s);
      assert Json.StrArray(xs).items == v.items;
      Some(xs)
    else None
  }

  lemma StrItemsOfStrArray(xs: seq<string>)
    ensures StrItems(Json.StrArray(xs)) == Some(xs)
  {
    var v := Json.StrArray(xs);
    var ys := seq(|v.items|, i requires 0 <= i < |v.items| => v.items[i].s);
    assert ys == xs;
  }

  // ---------------------------------------------------------------------
  // to_dict, to_json, __str__

  /** `asdict(record)`: the three fields under their names, in declaration
      order, the skills list copied element by element. */
  function ToDict(r: ResumeData): (d: Json.Value)
    ensures Keys(d) == ["name", "email", "skills"]
    ensures Lookup(d, "name") == Some(Json.Str(r.name))
    ensures Lookup(d, "email") == Some(Json.Str(r.email))
    ensures Lookup(d, "skills") == Some(Json.StrArray(r.skills))
  {
    var e := [("name", Json.Str(r.name)), ("email", Json.Str(r.email)), ("skills", Json.StrArray(r.skills))];
    assert e[1..] == [e[1], e[2]] && e[1..][1..] == [e[2]];
    assert "name" != "email" && "name" != "skills" && "email" != "skills" by {
      assert |"name"| == 4 && |"email"| == 5 && |"skills"| == 6;
    }
    assert LookupIn(e, "email") == LookupIn(e[1..], "email") == Some(Json.Str(r.email));
    assert LookupIn(e, "skills") == LookupIn(e[1..], "skills") == LookupIn(e[1..][1..], "skills");
    Json.Object(e)
  }

  /** `ResumeData(**d)`: a dict with exactly the three fields, in any order,
      whose values are a string, a string and a list of strings. */
  function FromDict(d: Json.Value): Option<ResumeData> {
    if !d.Object? || |d.entries| != 3 then None
    else
      match (Lookup(d, "name"), Lookup(d, "email"), Lookup(d, "skills"))
      case (Some(Str(name)), Some(Str(email)), Some(list)) =>
        (match StrItems(list)
         case Some(skills) => Some(ResumeData(name, email, skills))
         case None => None)
      case _ => None
  }

  /** `ResumeData(**record.to_dict())` is the record again. */
  lemma DictRoundTrip(r: ResumeData)
    ensures FromDict(ToDict(r)) == Some(r)
  {
    StrItemsOfStrArray(r.skills);
  }

  /** The dict has distinct keys, as a Python dict does. */
  lemma ToDictWellFormed(r: ResumeData)
    ensures Json.WellFormed(ToDict(r))
  {
    var d := ToDict(r);
    forall i | 0 <= i < |d.entries| ensures Json.WellFormed(d.entries[i].1) {
      if i == 2 {
        var v := d.entries[2].1;
        assert forall j | 0 <= j < |v.items| :: Json.WellFormed(v.items[j]) by {
          forall j | 0 <= j < |v.items| ensures Json.WellFormed(v.items[j]) {
            assert v.items[j] == Json.Str(r.skills[j]);
          }
        }
      }
    }
  }

  /** `record.to_json(indent)`: `json.dumps(record.to_dict(), indent=indent)`. */
  function ToJson(r: ResumeData, indent: int): (t: string)
    ensures Json.Loads(t) == Some(ToDict(r))
  {
    ToDictWellFormed(r);
    JsonRoundTrip.DumpsLoads(ToDict(r), indent);
    Json.Dumps(ToDict(r), indent)
  }

  /** Decoding a JSON document into a record. */
  function FromJson(t: string): Option<ResumeData> {
    match Json.Loads(t)
    case Some(d) => FromDict(d)
    case None => None
  }

  /** Decoding `to_json()` gives back the same name, email and skills. */
  lemma JsonRecordRoundTrip(r: ResumeData, indent: int)
    ensures FromJson(ToJson(r, indent)) == Some(r)
  {
    DictRoundTrip(r);
  }

  /** `str(record)`: `to_json()` with its default indent of 2. */
  function Str(r: ResumeData): (t: string)
    ensures t == ToJson(r, 2)
    ensures FromJson(t) == Some(r)
  {
    JsonRecordRoundTrip(r, 2);
    ToJson(r, 2)
  }

  // ---------------------------------------------------------------------
  // __repr__

  /** `repr(record)`: name and email inserted between single quotes as they
      are, the skills as the repr of the list. */
  function Repr(r: ResumeData): string {
    "ResumeData(name='" + r.name + "', email='" + r.email + "', skills=" + PyRepr.StrListRepr(r.skills) + ")"
  }

  /** `t` with the prefix `p` removed, if `t` starts with it. */
  function DropPrefix(p: string, t: string): (r: Option<string>)
    ensures r.Some? <==> p <= t
    ensures r.Some? ==> t == p + r.value
  {
    if p <= t then Some(t[|p|..]) else None
  }

  /** The text up to the first `'`, and the text after that quote. */
  function UpToQuote(t: string): (r: Option<(string, string)>)
    ensures r.Some? ==> t == r.value.0 + "'" + r.value.1 && '\'' !in r.value.0
  {
    if t == "" then None
    else if t[0] == '\'' then Some(("", t[1..]))
    else
      match UpToQuote(t[1..])
      case Some((s, rest)) => Some(([t[0]] + s, rest))
      case None => None
  }

  /** Reads a record back from the text `Repr` writes. */
  function ParseRepr(t: string): Option<ResumeData> {
    match DropPrefix("ResumeData(name='", t)
    case Some(t1) => ParseReprName(t1)
    case None => None
  }

  function ParseReprName(t: string): Option<ResumeData> {
    match UpToQuote(t)
    case Some((name, rest)) =>
      (match DropPrefix(", email='", rest)
       case Some(more) => ParseReprEmail(name, more)
       case None => None)
    case None => None
  }

  function ParseReprEmail(name: string, t: string): Option<ResumeData> {
    match UpToQuote(t)
    case Some((email, rest)) =>
      (match DropPrefix(", skills=", rest)
       case Some(more) => ParseReprSkills(name, email, more)
       case None => None)
    case None => None
  }

  function ParseReprSkills(name: string, email: string, t: string): Option<ResumeData> {
    if t == "" || t[|t| - 1] != ')' then None
    else
      match PyRepr.EvalStrListLiteral(t[..|t| - 1])
      case Some(skills) => Some(ResumeData(name, email, skills))
      case None => None
  }

  lemma {:induction false} UpToQuoteOf(s: string, rest: string)
    requires '\'' !in s
    ensures UpToQuote(s + "'" + rest) == Some((s, rest))
  {
    if s == "" {
      assert s + "'" + rest == "'" + rest;
    } else {
      assert (s + "'" + rest)[1..] == s[1..] + "'" + rest;
      UpToQuoteOf(s[1..], rest);
      assert [s[0]] + s[1..] == s;
    }
  }

  lemma DropPrefixOf(p: string, s: string)
    ensures DropPrefix(p, p + s) == Some(s)
  {
    assert (p + s)[|p|..] == s;
  }

  /** When neither the name nor the email contains `'`, the repr determines
      the record. */
  lemma ReprRoundTrip(r: ResumeData)
    requires '\'' !in r.name && '\'' !in r.email
    ensures ParseRepr(Repr(r)) == Some(r)
  {
    var sk := PyRepr.StrListRepr(r.skills);
    var t5 := sk + ")";
    var t4 := ", skills=" + t5;
    var t3 := r.email + "'" + t4;
    var t2 := ", email='" + t3;
    var t1 := r.name + "'" + t2;
    assert Repr(r) == "ResumeData(name='" + t1;
    assert t5[..|t5| - 1] == sk;
    PyRepr.StrListReprRoundTrip(r.skills);
    assert ParseReprSkills(r.name, r.email, t5) == Some(r);
    UpToQuoteOf(r.email, t4);
    DropPrefixOf(", skills=", t5);
    assert ParseReprEmail(r.name, t3) == Some(r);
    UpToQuoteOf(r.name, t2);
    DropPrefixOf(", email='", t3);
    assert ParseReprName(t1) == Some(r);
    DropPrefixOf("ResumeData(name='", t1);
  }

  /** Because name and email are inserted without escaping, two different
      records can have the same repr. */
  lemma ReprNotInjective()
    ensures var a := ResumeData("x', email='y", "z", []);
            var b := ResumeData("x", "y', email='z", []);
            a != b && Repr(a) == Repr(b)
  {
    var a := ResumeData("x', email='y", "z", []);
    var b := ResumeData("x", "y', email='z", []);
    assert a.name != b.name by { assert |a.name| != |b.name|; }
  }
}
