/** `SkillsExtractor`: technical skills from resume text. The remote
    language model is an oracle whose reply is a parameter; its reply is
    parsed as a JSON list, and when the call fails a catalogue of common
    skills is searched instead. */
module Skills {
  import opened Wrappers
  import opened Strings
  import opened Json
  import opened Errors
  import JsonRoundTrip

  /** The model used when none is named. */
  const DefaultModel: string := "models/gemini-3-flash-preview"

  /** The message of the error raised when no key is available. */
  const MissingKey: string := "API key must be provided or set in GEMINI_API_KEY environment variable."

  /** The message of the error `genai.configure` raises when the library
      could not be imported and `genai` is `None`. */
  const NoConfigure: string := "'NoneType' object has no attribute 'configure'"

  // ---------------------------------------------------------------------
  // Credentials

  /** An optional string that Python treats as true: present and not
      empty. */
  predicate Given(s: Option<string>) {
    s.Some? && s.value != ""
  }

  /** `api_key or os.getenv("GEMINI_API_KEY")`, and the error when neither
      is given. `env` is the value of the environment variable, if set. */
  function ResolveKey(apiKey: Option<string>, env: Option<string>): (r: Result<string, Error>)
    ensures r.Ok? <==> Given(apiKey) || Given(env)
    ensures r.Ok? ==> r.value != ""
    ensures Given(apiKey) ==> r == Ok(apiKey.value)
    ensures !Given(apiKey) && Given(env) ==> r == Ok(env.value)
    ensures r.Err? ==> r.error == ValueError(MissingKey)
  {
    if Given(apiKey) then Ok(apiKey.value)
    else if Given(env) then Ok(env.value)
    else Err(ValueError(MissingKey))
  }

  // ---------------------------------------------------------------------
  // The remote call

  /** What the call to the model gives back: it raises, it returns
      nothing, or it returns a response carrying text. */
  datatype Reply = Raised | NoReply | Replied(text: string)

  // ---------------------------------------------------------------------
  // Parsing the reply

  /** `re.search(r'\[.*?\]', t, re.DOTALL)`: the span from the first `[`
      to the first `]` after it. */
  function BracketSpan(t: string): (r: Option<(nat, nat)>)
    ensures r.Some? ==> r.value.0 + 2 <= r.value.1 <= |t|
  {
    var i := NextSep(t, '[', 0);
    if i == |t| then None
    else
      var j := NextSep(t, ']', i + 1);
      if j == |t| then None else Some((i, j + 1))
  }

  /** `[str(skill).strip() for skill in items if skill]` */
  function Clean(items: seq<Value>): (r: seq<string>)
    ensures |r| <= |items|
  {
    if items == [] then []
    else
      var x := items[|items| - 1];
      Clean(items[..|items| - 1]) + if Truthy(x) then [Strip(PyStr(x))] else []
  }

  /** `_parse_skills_from_response(t)`: the bracketed span decoded as JSON;
      a list gives its cleaned elements, anything else (and a decode
      error) the empty list. */
  function ParseSkills(t: string): seq<string> {
    match BracketSpan(t)
    case None => []
    case Some((i, e)) =>
      match Loads(t[i..e])
      case Some(Array(items)) => Clean(items)
      case _ => []
  }

  // ---------------------------------------------------------------------
  // The fallback

  /** The skills the fallback looks for, in the order it reports them,
      one constant per line of the source's list. */
  const Catalogue: seq<string> :=
    Languages + Databases + Frameworks + Platforms + Tooling + AiTopics + Libraries + Practices

  const Languages: seq<string> := ["Python", "Java", "JavaScript", "C++", "C#", "Ruby", "Go", "Rust"]
  const Databases: seq<string> := ["SQL", "NoSQL", "MongoDB", "PostgreSQL", "MySQL"]
  const Frameworks: seq<string> := ["React", "Angular", "Vue", "Node.js", "Django", "Flask", "Spring"]
  const Platforms: seq<string> := ["Docker", "Kubernetes", "AWS", "Azure", "GCP"]
  const Tooling: seq<string> := ["Git", "CI/CD", "Jenkins", "Linux", "Unix"]
  const AiTopics: seq<string> := ["Machine Learning", "Deep Learning", "AI", "NLP", "Computer Vision"]
  const Libraries: seq<string> := ["TensorFlow", "PyTorch", "Scikit-learn", "Pandas", "NumPy"]
  const Practices: seq<string> := ["REST API", "GraphQL", "Microservices", "Agile", "Scrum"]

  /** `skill.lower() in text.lower()` */
  predicate Mentions(text: string, skill: string) {
    IsSubstring(Lower(skill), Lower(text))
  }

  /** The first `k` entries of the catalogue `cat` that the text
      mentions, in catalogue order. */
  function Found(text: string, cat: seq<string>, k: nat): (r: seq<string>)
    requires k <= |cat|
    ensures |r| <= k
  {
    if k == 0 then []
    else Found(text, cat, k - 1) + if Mentions(text, cat[k - 1]) then [cat[k - 1]] else []
  }

  /** The result of `extract(text)` when the remote call gives `reply`. */
  function ExtractSpec(text: string, reply: Reply): seq<string> {
    if text == "" || Strip(text) == "" then []
    else
      match reply
      case Raised => Found(text, Catalogue, |Catalogue|)
      case NoReply => []
      case Replied(t) => if t == "" then [] else ParseSkills(t)
  }

  // ---------------------------------------------------------------------
  // The extractor object

  class SkillsExtractor {
    var apiKey: string
    var modelName: string

    /** The fields `__init__` sets once the key is resolved. */
    constructor (key: string, model: string)
      requires key != ""
      ensures apiKey == key && modelName == model
    {
      apiKey := key;
      modelName := model;
    }

    /** `_fallback_extraction(text)`: every catalogue entry whose lower
        case occurs in the lower-cased text, appended in catalogue
        order. */
    method Fallback(text: string) returns (found: seq<string>)
      ensures found == Found(text, Catalogue, |Catalogue|)
    {
      found := [];
      var textLower := Lower(text);
      var commonSkills := Catalogue;
      var i := 0;
      while i < |commonSkills|
        invariant 0 <= i <= |commonSkills|
        invariant found == Found(text, commonSkills, i)
      {
        var skill := commonSkills[i];
        if IsSubstring(Lower(skill), textLower) {
          found := found + [skill];
        }
        i := i + 1;
      }
    }

    /** `extract(text)`, the remote call giving `reply`. */
    method Extract(text: string, reply: Reply) returns (skills: seq<string>)
      ensures skills == ExtractSpec(text, reply)
    {
      if text == "" || Strip(text) == "" {
        return [];
      }
      match reply
      case Raised =>
        skills := Fallback(text);
      case NoReply =>
        skills := [];
      case Replied(t) =>
        skills := if t == "" then [] else ParseSkills(t);
    }
  }

  /** `SkillsExtractor(api_key, model_name)` with the environment variable
      holding `env`. `model` is `None` when no model name is passed, and
      `libraryLoaded` says whether `google.generativeai` was imported; when
      it was not, `genai` is `None` and `genai.configure` raises
      `AttributeError` once a key has been found. The result is a new
      extractor holding the resolved, non-empty key, or the error. */
  method New(apiKey: Option<string>, env: Option<string>, model: Option<string>, libraryLoaded: bool)
    returns (r: Result<SkillsExtractor, Error>)
    ensures r.Ok? <==> ResolveKey(apiKey, env).Ok? && libraryLoaded
    ensures r.Ok? ==> fresh(r.value) && r.value.apiKey != ""
    ensures r.Ok? ==> r.value.apiKey == ResolveKey(apiKey, env).value
    ensures r.Ok? ==> r.value.modelName == (if model.Some? then model.value else DefaultModel)
    ensures ResolveKey(apiKey, env).Err? ==> r == Err(ResolveKey(apiKey, env).error)
    ensures ResolveKey(apiKey, env).Ok? && !libraryLoaded ==> r == Err(AttributeError(NoConfigure))
  {
    var key := ResolveKey(apiKey, env);
    if key.Err? {
      return Err(key.error);
    }
    if !libraryLoaded {
      return Err(AttributeError(NoConfigure));
    }
    var modelName := if model.Some? then model.value else DefaultModel;
    var x := new SkillsExtractor(key.value, modelName);
    return Ok(x);
  }

  // ---------------------------------------------------------------------
  // Properties of `extract`

  /** Blank text gives `[]` whatever the remote call would do, so the
      call is not consulted. */
  lemma ExtractBlank(text: string, reply: Reply)
    requires IsBlank(text)
    ensures ExtractSpec(text, reply) == []
  {
    StripEmptyIffBlank(text);
  }

  /** For text that is not blank: a failed call gives exactly the
      fallback, a missing or empty reply gives `[]`, and a reply with text
      gives what the parser makes of it. */
  lemma ExtractOutcomes(text: string)
    requires !IsBlank(text)
    ensures ExtractSpec(text, Raised) == Found(text, Catalogue, |Catalogue|)
    ensures ExtractSpec(text, NoReply) == [] && ExtractSpec(text, Replied("")) == []
    ensures forall t :: t != "" ==> ExtractSpec(text, Replied(t)) == ParseSkills(t)
  {
    StripEmptyIffBlank(text);
  }

  // ---------------------------------------------------------------------
  // Properties of the parser

  /** The span found starts at a `[`, ends just after a `]`, holds no `]`
      in between, and no `[` comes before it: the leftmost, shortest
      match of the pattern. */
  lemma BracketSpanSome(t: string)
    requires BracketSpan(t).Some?
    ensures var (i, e) := BracketSpan(t).value;
      && t[i] == '[' && t[e - 1] == ']'
      && (forall k :: i < k < e - 1 ==> t[k] != ']')
      && (forall k :: 0 <= k < i ==> t[k] != '[')
  {
    var (i, e) := BracketSpan(t).value;
    forall k | i < k < e - 1 ensures t[k] != ']' {
      NextSepAt(t, ']', i + 1, k);
    }
    forall k | 0 <= k < i ensures t[k] != '[' {
      NextSepAt(t, '[', 0, k);
    }
  }

  /** No span is found exactly when no `[` has a `]` after it. */
  lemma BracketSpanNone(t: string)
    ensures BracketSpan(t).None? <==> forall i, j :: 0 <= i < j < |t| && t[i] == '[' ==> t[j] != ']'
  {
    var i := NextSep(t, '[', 0);
    if i < |t| {
      var j := NextSep(t, ']', i + 1);
      if j == |t| {
        forall a, b | 0 <= a < b < |t| && t[a] == '[' ensures t[b] != ']' {
          if a < i {
            NextSepAt(t, '[', 0, a);
          }
          NextSepAt(t, ']', i + 1, b);
        }
      }
    } else {
      forall a | 0 <= a < |t| ensures t[a] != '[' {
        NextSepAt(t, '[', 0, a);
      }
    }
  }

  /** Cleaning works element by element: cleaning a concatenation is the
      concatenation of the cleaned parts. */
  lemma {:induction false} CleanConcat(a: seq<Value>, b: seq<Value>)
    ensures Clean(a + b) == Clean(a) + Clean(b)
    decreases |b|
  {
    if b == [] {
      assert a + b == a;
    } else {
      var n := |b| - 1;
      assert (a + b)[..|a + b| - 1] == a + b[..n];
      assert (a + b)[|a + b| - 1] == b[n];
      CleanConcat(a, b[..n]);
    }
  }

  /** Every true element is kept, stringified and stripped. */
  lemma {:induction false} CleanHas(items: seq<Value>, k: nat)
    requires k < |items| && Truthy(items[k])
    ensures Strip(PyStr(items[k])) in Clean(items)
    decreases |items|
  {
    var n := |items| - 1;
    if k < n {
      assert items[..n][k] == items[k];
      CleanHas(items[..n], k);
    }
  }

  /** Every cleaned string comes from a true element. */
  lemma {:induction false} CleanFrom(items: seq<Value>, s: string)
    requires s in Clean(items)
    ensures exists k :: 0 <= k < |items| && Truthy(items[k]) && s == Strip(PyStr(items[k]))
    decreases |items|
  {
    var n := |items| - 1;
    if s in Clean(items[..n]) {
      CleanFrom(items[..n], s);
      var k :| 0 <= k < n && Truthy(items[..n][k]) && s == Strip(PyStr(items[..n][k]));
      assert items[k] == items[..n][k];
    } else {
      assert Truthy(items[n]) && s == Strip(PyStr(items[n]));
    }
  }

  /** A string is in the cleaned list exactly when some true element
      stringifies and strips to it. */
  lemma CleanMember(items: seq<Value>, s: string)
    ensures s in Clean(items) <==> exists k :: 0 <= k < |items| && Truthy(items[k]) && s == Strip(PyStr(items[k]))
  {
    if s in Clean(items) {
      CleanFrom(items, s);
    }
    if exists k :: 0 <= k < |items| && Truthy(items[k]) && s == Strip(PyStr(items[k])) {
      var k :| 0 <= k < |items| && Truthy(items[k]) && s == Strip(PyStr(items[k]));
      CleanHas(items, k);
    }
  }

  /** A list of non-empty, already stripped strings survives cleaning
      unchanged. */
  lemma {:induction false} CleanStrings(xs: seq<string>)
    requires forall i :: 0 <= i < |xs| ==> xs[i] != "" && Strip(xs[i]) == xs[i]
    ensures Clean(StrArray(xs).items) == xs
    decreases |xs|
  {
    if xs != [] {
      var n := |xs| - 1;
      var items := StrArray(xs).items;
      assert items[..n] == StrArray(xs[..n]).items;
      CleanStrings(xs[..n]);
      assert xs == xs[..n] + [xs[n]];
    }
  }

  /** No hexadecimal digit is a closing bracket. */
  lemma {:induction false} HexNoClose(n: nat, width: nat)
    requires n < Pow16(width)
    ensures ']' !in ToHex(n, width)
  {
    if width > 0 {
      HexNoClose(n / 16, width - 1);
      var d := n % 16;
      assert "0123456789abcdef"[d] != ']';
    }
  }

  /** `json.dumps` writes a closing bracket only for a closing bracket. */
  lemma EscapeCharNoClose(c: char)
    requires c != ']'
    ensures ']' !in EscapeJsonChar(c)
  {
    if c as int >= 0x10000 {
      HexNoClose(HighSurrogate(c), 4);
      HexNoClose(LowSurrogate(c), 4);
    } else {
      HexNoClose(c as int, 4);
    }
  }

  lemma {:induction false} EscapeNoClose(s: string)
    requires ']' !in s
    ensures ']' !in EscapeJson(s)
  {
    if s != "" {
      EscapeCharNoClose(s[0]);
      EscapeNoClose(s[1..]);
    }
  }

  lemma NewlineIndentNoClose(ind: string, level: nat)
    requires AllJsonSpace(ind)
    ensures ']' !in NewlineIndent(ind, level)
  {
    JsonRoundTrip.NewlineIndentSpace(ind, level);
  }

  /** The items of an encoded list of bracket-free strings hold no
      closing bracket. */
  lemma {:induction false} ItemsNoClose(xs: seq<string>, ind: string, level: nat, k: nat)
    requires AllJsonSpace(ind) && k < |xs|
    requires forall i :: 0 <= i < |xs| ==> ']' !in xs[i]
    ensures ']' !in EncodeItems(StrArray(xs), ind, level, k)
    decreases |xs| - k
  {
    var v := StrArray(xs);
    EscapeNoClose(xs[k]);
    assert Encode(v.items[k], ind, level) == EncodeString(xs[k]);
    if k + 1 < |xs| {
      NewlineIndentNoClose(ind, level);
      ItemsNoClose(xs, ind, level, k + 1);
    }
  }

  /** A bracket-free text between brackets closes only at its end. */
  predicate ClosesOnlyAtEnd(d: string) {
    && |d| >= 2 && d[0] == '[' && d[|d| - 1] == ']'
    && forall k :: 0 < k < |d| - 1 ==> d[k] != ']'
  }

  lemma Bracketed(inner: string)
    requires ']' !in inner
    ensures ClosesOnlyAtEnd("[" + inner + "]")
  {
    var d := "[" + inner + "]";
    assert forall k :: 0 < k < |d| - 1 ==> d[k] == inner[k - 1];
  }

  /** The text of a list of bracket-free strings opens with `[`, closes
      with `]` and holds no other `]`. */
  lemma DumpsShape(xs: seq<string>, indent: int)
    requires forall i :: 0 <= i < |xs| ==> ']' !in xs[i]
    ensures ClosesOnlyAtEnd(Dumps(StrArray(xs), indent))
  {
    var width := if indent < 0 then 0 else indent;
    var ind := Repeat(" ", width);
    var v := StrArray(xs);
    assert Dumps(v, indent) == Encode(v, ind, 0);
    if xs == [] {
      assert Encode(v, ind, 0) == "[]";
    } else {
      JsonRoundTrip.RepeatSpace(" ", width);
      var inner := NewlineIndent(ind, 1) + EncodeItems(v, ind, 1, 0) + NewlineIndent(ind, 0);
      assert Encode(v, ind, 0) == "[" + inner + "]";
      NewlineIndentNoClose(ind, 1);
      NewlineIndentNoClose(ind, 0);
      ItemsNoClose(xs, ind, 1, 0);
      Bracketed(inner);
    }
  }

  /** After text without a `[`, a bracketed text that closes only at its
      end is exactly the span found. */
  lemma SpanOfBracketed(x: string, d: string, z: string)
    requires '[' !in x && ClosesOnlyAtEnd(d)
    ensures BracketSpan(x + d + z) == Some((|x|, |x| + |d|))
    ensures (x + d + z)[|x|..|x| + |d|] == d
  {
    var t := x + d + z;
    assert forall k :: 0 <= k < |x| ==> t[k] == x[k];
    assert forall k :: 0 <= k < |d| ==> t[|x| + k] == d[k];
    NextSepIs(t, '[', 0, |x|);
    NextSepIs(t, ']', |x| + 1, |x| + |d| - 1);
    assert t[|x|..|x| + |d|] == d;
  }

  /** A reply that carries the JSON text of a list of skills, after text
      without a `[`, parses back to that list, when the skills are
      non-empty, already stripped and free of `]`. */
  lemma ParseSkillsOfDumps(x: string, xs: seq<string>, indent: int, z: string)
    requires '[' !in x
    requires forall i :: 0 <= i < |xs| ==> xs[i] != "" && Strip(xs[i]) == xs[i] && ']' !in xs[i]
    ensures ParseSkills(x + Dumps(StrArray(xs), indent) + z) == xs
  {
    var d := Dumps(StrArray(xs), indent);
    DumpsShape(xs, indent);
    SpanOfBracketed(x, d, z);
    JsonRoundTrip.DumpsLoads(StrArray(xs), indent);
    CleanStrings(xs);
  }

  // ---------------------------------------------------------------------
  // Properties of the fallback

  /** A skill is reported exactly when it is one of the first `k` in the
      catalogue and the text mentions it, ignoring case. */
  lemma {:induction false} FoundMember(text: string, cat: seq<string>, k: nat, s: string)
    requires k <= |cat|
    ensures s in Found(text, cat, k) <==> s in cat[..k] && Mentions(text, s)
  {
    if k > 0 {
      FoundMember(text, cat, k - 1, s);
      assert cat[..k] == cat[..k - 1] + [cat[k - 1]];
    }
  }

  /** `a` is `b` with some elements left out, the rest in order. */
  predicate SubsequenceOf(a: seq<string>, b: seq<string>)
    decreases |b|
  {
    if a == [] then true
    else if b == [] then false
    else
      || (a[|a| - 1] == b[|b| - 1] && SubsequenceOf(a[..|a| - 1], b[..|b| - 1]))
      || SubsequenceOf(a, b[..|b| - 1])
  }

  /** The report is the catalogue with the unmentioned skills left out,
      spelt and ordered as the catalogue has them. */
  lemma {:induction false} FoundSubsequence(text: string, cat: seq<string>, k: nat)
    requires k <= |cat|
    ensures SubsequenceOf(Found(text, cat, k), cat[..k])
  {
    if k > 0 {
      FoundSubsequence(text, cat, k - 1);
      var b := cat[..k];
      assert b[..|b| - 1] == cat[..k - 1];
      var a := Found(text, cat, k);
      if Mentions(text, cat[k - 1]) {
        assert a[..|a| - 1] == Found(text, cat, k - 1);
        assert a[|a| - 1] == b[|b| - 1];
        assert SubsequenceOf(a[..|a| - 1], b[..|b| - 1]);
      } else {
        assert a == Found(text, cat, k - 1);
        assert SubsequenceOf(a, b[..|b| - 1]);
      }
    }
  }

  /** No two entries of a sequence are equal. */
  predicate Distinct(s: seq<string>) {
    forall i, j :: 0 <= i < j < |s| ==> s[i] != s[j]
  }

  /** Over a catalogue without repeats, the report has no duplicates. */
  lemma {:induction false} FoundDistinct(text: string, cat: seq<string>, k: nat)
    requires k <= |cat| && Distinct(cat)
    ensures Distinct(Found(text, cat, k))
  {
    if k > 0 {
      FoundDistinct(text, cat, k - 1);
      var c := cat[k - 1];
      FoundMember(text, cat, k - 1, c);
      assert c !in cat[..k - 1];
    }
  }

  /** Joining two sequences without repeats and without common entries
      gives a sequence without repeats. */
  lemma DistinctConcat(a: seq<string>, b: seq<string>)
    requires Distinct(a) && Distinct(b)
    requires forall i, j :: 0 <= i < |a| && 0 <= j < |b| ==> a[i] != b[j]
    ensures Distinct(a + b)
  {
  }

  /** The first four lines of the catalogue name each skill once. */
  lemma PlatformsDistinct()
    ensures Distinct(Languages + Databases + Frameworks + Platforms)
  {
    DistinctConcat(Languages, Databases);
    DistinctConcat(Languages + Databases, Frameworks);
    DistinctConcat(Languages + Databases + Frameworks, Platforms);
  }

  /** The first six lines of the catalogue name each skill once. */
  lemma AiTopicsDistinct()
    ensures Distinct(Languages + Databases + Frameworks + Platforms + Tooling + AiTopics)
  {
    PlatformsDistinct();
    DistinctConcat(Languages + Databases + Frameworks + Platforms, Tooling);
    DistinctConcat(Languages + Databases + Frameworks + Platforms + Tooling, AiTopics);
  }

  /** The first seven lines of the catalogue name each skill once. */
  lemma LibrariesDistinct()
    ensures Distinct(Languages + Databases + Frameworks + Platforms + Tooling + AiTopics + Libraries)
  {
    AiTopicsDistinct();
    DistinctConcat(Languages + Databases + Frameworks + Platforms + Tooling + AiTopics, Libraries);
  }

  /** The catalogue names each skill once. */
  lemma CatalogueDistinct()
    ensures Distinct(Catalogue)
  {
    LibrariesDistinct();
    DistinctConcat(Languages + Databases + Frameworks + Platforms + Tooling + AiTopics + Libraries, Practices);
  }

  /** The fallback reports each skill at most once, and at most 45. */
  lemma FallbackBounds(text: string)
    ensures Distinct(Found(text, Catalogue, |Catalogue|))
    ensures |Found(text, Catalogue, |Catalogue|)| <= 45
  {
    CatalogueDistinct();
    FoundDistinct(text, Catalogue, |Catalogue|);
  }

  /** Matching is by substring, so a text that mentions a skill mentions
      every skill whose name is part of it. */
  lemma MentionsPart(text: string, part: string, whole: string)
    requires IsSubstring(Lower(part), Lower(whole)) && Mentions(text, whole)
    ensures Mentions(text, part)
  {
    SubstringOfSubstring(Lower(part), Lower(whole), Lower(text));
  }

  /** "java" is part of "javascript". */
  lemma JavaInJavaScript()
    ensures IsSubstring(Lower("Java"), Lower("JavaScript"))
  {
    assert Lower("JavaScript")[..4] == Lower("Java");
    assert OccursAt(Lower("Java"), Lower("JavaScript"), 0);
  }

  /** A reported JavaScript always comes with Java. */
  lemma JavaScriptGivesJava(text: string)
    requires "JavaScript" in Found(text, Catalogue, |Catalogue|)
    ensures "Java" in Found(text, Catalogue, |Catalogue|)
  {
    var cat := Catalogue;
    assert cat[1] == "Java";
    assert cat[..|cat|] == cat;
    FoundMember(text, cat, |cat|, "JavaScript");
    JavaInJavaScript();
    MentionsPart(text, "Java", "JavaScript");
    FoundMember(text, cat, |cat|, "Java");
  }

  /** The case of the text does not matter to the fallback. */
  lemma {:induction false} FoundIgnoresCase(text: string, cat: seq<string>, k: nat)
    requires k <= |cat|
    ensures Found(Lower(text), cat, k) == Found(text, cat, k)
  {
    if k > 0 {
      FoundIgnoresCase(text, cat, k - 1);
      LowerFolds(text);
    }
  }

  /** A skill named anywhere in the text is reported. */
  lemma FoundNamed(x: string, skill: string, z: string, cat: seq<string>)
    requires skill in cat
    ensures skill in Found(x + skill + z, cat, |cat|)
  {
    var t := x + skill + z;
    LowerOfConcat(x + skill, z);
    LowerOfConcat(x, skill);
    assert Lower(t)[|x|..|x| + |skill|] == Lower(skill);
    assert OccursAt(Lower(skill), Lower(t), |x|);
    FoundMember(t, cat, |cat|, skill);
    assert cat[..|cat|] == cat;
  }

  /** The resume text of the fallback test, a triple-quoted literal with
      its leading new line and indentation, cut around the two skills the
      lemmas below look for. */
  const FallbackTestText: string :=
    TestLead + "Python" + TestMiddle + "Machine Learning" + TestTail

  const TestLead: string := "\n        Senior Software Engineer with expertise in "

  const TestMiddle: string :=
    ", Java, and JavaScript."
    + "\n        Experience with Docker, Kubernetes, and AWS cloud services."
    + "\n        Strong background in "

  const TestTail: string := " and Deep Learning.\n        "

  /** The fallback on the test's resume text finds Python. */
  lemma FallbackFindsPython()
    ensures "Python" in Found(FallbackTestText, Catalogue, |Catalogue|)
  {
    assert TestLead + "Python" + (TestMiddle + "Machine Learning" + TestTail) == FallbackTestText;
    assert Catalogue[0] == "Python";
    FoundNamed(TestLead, "Python", TestMiddle + "Machine Learning" + TestTail, Catalogue);
  }

  /** The fallback on the test's resume text finds Machine Learning. */
  lemma FallbackFindsMachineLearning()
    ensures "Machine Learning" in Found(FallbackTestText, Catalogue, |Catalogue|)
  {
    assert Catalogue[30] == "Machine Learning";
    FoundNamed(TestLead + "Python" + TestMiddle, "Machine Learning", TestTail, Catalogue);
  }
}
