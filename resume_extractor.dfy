/** `ResumeExtractor`: the coordinator that holds a dict from field names to
    field extractors and runs the three reserved ones over a resume text.
    An extractor is any value of the type parameter `E`; what its `extract`
    gives for a text is an oracle passed to `Extract` (`textOf` for the
    name and e-mail fields, `listOf` for the skills field). */
module Coordinator {
  import opened Wrappers
  import opened Strings
  import opened Errors
  import opened ResumeRecord
  import PyRepr

  /** The fields `__init__` demands, in the order `extract` consults them. */
  const Order: seq<string> := ["name", "email", "skills"]

  const Reserved: set<string> := {"name", "email", "skills"}

  const MissingPrefix: string := "Missing required field extractors: "
  const EmptyText: string := "Cannot extract from empty text"
  const ExtractPrefix: string := "Failed to extract resume data: "

  // ---------------------------------------------------------------------
  // Messages

  /** The reserved fields absent from `keys`, in the order of `Order`. */
  function MissingNames(keys: set<string>): (r: seq<string>)
    ensures forall s :: s in r <==> s in Reserved && s !in keys
    ensures r == [] <==> Reserved <= keys
    ensures |r| <= 3
  {
    (if "name" in keys then [] else ["name"])
    + (if "email" in keys then [] else ["email"])
    + (if "skills" in keys then [] else ["skills"])
  }

  /** `repr` of each string. */
  function Quoted(xs: seq<string>): (r: seq<string>)
    ensures |r| == |xs|
    ensures forall i :: 0 <= i < |xs| ==> r[i] == PyRepr.StrRepr(xs[i])
  {
    seq(|xs|, i requires 0 <= i < |xs| => PyRepr.StrRepr(xs[i]))
  }

  /** `f"Missing required field extractors: {missing}"`: the missing fields
      written as a Python set of strings. */
  function MissingMessage(keys: set<string>): string {
    MissingPrefix + "{" + Join(", ", Quoted(MissingNames(keys))) + "}"
  }

  /** `str(KeyError(f"Field extractor '{key}' not found"))`. */
  function NotFound(key: string): Error {
    KeyError("Field extractor '" + key + "' not found")
  }

  // ---------------------------------------------------------------------
  // Extraction, as a function of the dict and the oracles

  /** What one run of `extract` gives, and the fields whose extractor it
      called, in call order. */
  datatype Run = Run(result: Result<ResumeData, Error>, called: seq<string>)

  /** `extract(text)` over the dict `m`: blank text is refused before the
      `try`; inside it the three reserved extractors run in order, and the
      first missing key or failing extractor ends the run with the wrapped
      error. */
  function ExtractRun<E>(m: map<string, E>, text: string,
                         textOf: (E, string) -> Result<string, Error>,
                         listOf: (E, string) -> Result<seq<string>, Error>): Run
  {
    if text == "" || Strip(text) == "" then Run(Err(ValueError(EmptyText)), [])
    else if "name" !in m then Run(Err(Wrap(ExtractPrefix, KeyError("name"))), [])
    else
      var name := textOf(m["name"], text);
      if name.Err? then Run(Err(Wrap(ExtractPrefix, name.error)), ["name"])
      else if "email" !in m then Run(Err(Wrap(ExtractPrefix, KeyError("email"))), ["name"])
      else
        var email := textOf(m["email"], text);
        if email.Err? then Run(Err(Wrap(ExtractPrefix, email.error)), ["name", "email"])
        else if "skills" !in m then Run(Err(Wrap(ExtractPrefix, KeyError("skills"))), ["name", "email"])
        else
          var skills := listOf(m["skills"], text);
          if skills.Err? then Run(Err(Wrap(ExtractPrefix, skills.error)), Order)
          else Run(Ok(ResumeData(name.value, email.value, skills.value)), Order)
  }

  // ---------------------------------------------------------------------
  // The objects

  /** A Python dict from field names to extractors. It is an object: the
      caller that built it and the coordinator that stores it share it. */
  class ExtractorTable<E> {
    var entries: map<string, E>

    constructor (entries: map<string, E>)
      ensures this.entries == entries
    {
      this.entries := entries;
    }
  }

  class ResumeExtractor<E> {
    /** The dict given to `__init__`, stored by reference. */
    const fieldExtractors: ExtractorTable<E>

    /** What `__init__` checked: all three reserved fields are present. */
    predicate Complete()
      reads this, fieldExtractors
    {
      Reserved <= fieldExtractors.entries.Keys
    }

    /** The assignment `__init__` makes once the check has passed. */
    constructor (table: ExtractorTable<E>)
      requires Reserved <= table.entries.Keys
      ensures fieldExtractors == table && Complete()
    {
      fieldExtractors := table;
    }

    /** `extract(text)`: the record, or the error, that `ExtractRun`
        describes; `called` lists the fields whose extractor ran. */
    method Extract(text: string,
                   textOf: (E, string) -> Result<string, Error>,
                   listOf: (E, string) -> Result<seq<string>, Error>)
      returns (result: Result<ResumeData, Error>, called: seq<string>)
      ensures Run(result, called) == ExtractRun(fieldExtractors.entries, text, textOf, listOf)
    {
      if text == "" || Strip(text) == "" {
        return Err(ValueError(EmptyText)), [];
      }
      var m := fieldExtractors.entries;
      called := [];
      if "name" !in m {
        return Err(Wrap(ExtractPrefix, KeyError("name"))), called;
      }
      var name := textOf(m["name"], text);
      called := called + ["name"];
      if name.Err? {
        return Err(Wrap(ExtractPrefix, name.error)), called;
      }
      if "email" !in m {
        return Err(Wrap(ExtractPrefix, KeyError("email"))), called;
      }
      var email := textOf(m["email"], text);
      called := called + ["email"];
      if email.Err? {
        return Err(Wrap(ExtractPrefix, email.error)), called;
      }
      if "skills" !in m {
        return Err(Wrap(ExtractPrefix, KeyError("skills"))), called;
      }
      var skills := listOf(m["skills"], text);
      called := called + ["skills"];
      if skills.Err? {
        return Err(Wrap(ExtractPrefix, skills.error)), called;
      }
      result := Ok(ResumeData(name.value, email.value, skills.value));
    }

    /** `add_extractor(key, e)`: insert or replace the entry for `key`. */
    method Add(key: string, e: E)
      modifies fieldExtractors
      ensures fieldExtractors.entries == old(fieldExtractors.entries)[key := e]
      ensures old(Complete()) ==> Complete()
    {
      fieldExtractors.entries := fieldExtractors.entries[key := e];
    }

    /** `remove_extractor(key)`: drop the entry, or fail with `KeyError`
        and change nothing. A reserved key can be dropped too, after which
        the check `__init__` made no longer holds. */
    method Remove(key: string) returns (r: Result<(), Error>)
      modifies fieldExtractors
      ensures key in old(fieldExtractors.entries) ==>
        r == Ok(()) && fieldExtractors.entries == old(fieldExtractors.entries) - {key}
      ensures key !in old(fieldExtractors.entries) ==>
        r == Err(NotFound(key)) && fieldExtractors.entries == old(fieldExtractors.entries)
      ensures key in Reserved ==> !Complete()
    {
      if key in fieldExtractors.entries {
        fieldExtractors.entries := fieldExtractors.entries - {key};
        return Ok(());
      }
      return Err(NotFound(key));
    }

    /** `get_extractor(key)`: the stored extractor, or `KeyError`. */
    method Get(key: string) returns (r: Result<E, Error>)
      ensures r.Ok? <==> key in fieldExtractors.entries
      ensures r.Ok? ==> r.value == fieldExtractors.entries[key]
      ensures r.Err? ==> r.error == NotFound(key)
    {
      if key in fieldExtractors.entries {
        return Ok(fieldExtractors.entries[key]);
      }
      return Err(NotFound(key));
    }
  }

  /** `ResumeExtractor(table)`: a coordinator sharing the dict when the
      three reserved fields are present, otherwise the `ValueError` that
      names the missing ones. Extra fields are accepted. */
  method New<E>(table: ExtractorTable<E>) returns (r: Result<ResumeExtractor<E>, Error>)
    ensures r.Ok? <==> Reserved <= table.entries.Keys
    ensures r.Ok? ==> fresh(r.value) && r.value.fieldExtractors == table
    ensures r.Err? ==> r.error == ValueError(MissingMessage(table.entries.Keys))
  {
    if !(Reserved <= table.entries.Keys) {
      return Err(ValueError(MissingMessage(table.entries.Keys)));
    }
    var c := new ResumeExtractor(table);
    return Ok(c);
  }

  // ---------------------------------------------------------------------
  // Properties of the construction check

  /** A part of a joined string occurs in it. */
  lemma {:induction false} JoinHas(sep: string, parts: seq<string>, i: nat)
    requires i < |parts|
    ensures IsSubstring(parts[i], Join(sep, parts))
    decreases |parts|
  {
    var j := Join(sep, parts);
    if |parts| == 1 {
      assert OccursAt(parts[0], j, 0);
    } else {
      var rest := Join(sep, parts[1..]);
      assert j == parts[0] + sep + rest;
      if i == 0 {
        assert j[..|parts[0]|] == parts[0];
        assert OccursAt(parts[0], j, 0);
      } else {
        JoinHas(sep, parts[1..], i - 1);
        assert j[|parts[0] + sep|..] == rest;
        assert OccursAt(rest, j, |parts[0] + sep|);
        SubstringOfSubstring(parts[i], rest, j);
      }
    }
  }

  /** Letters are written as they are inside single quotes. */
  lemma {:induction false} LettersEscapeToSelf(s: string)
    requires forall i :: 0 <= i < |s| ==> IsLetter(s[i])
    ensures PyRepr.EscapeAll(s, '\'') == s
  {
    if s != "" {
      LettersEscapeToSelf(s[1..]);
      assert PyRepr.EscapeChar(s[0], '\'') == [s[0]];
    }
  }

  /** The repr of a word of letters is the word in single quotes. */
  lemma LettersRepr(s: string)
    requires forall i :: 0 <= i < |s| ==> IsLetter(s[i])
    ensures PyRepr.StrRepr(s) == "'" + s + "'"
  {
    assert '\'' !in s;
    LettersEscapeToSelf(s);
  }

  /** A reserved name occurs in its repr. */
  lemma ReservedInRepr(s: string)
    requires s in Reserved
    ensures IsSubstring(s, PyRepr.StrRepr(s))
  {
    assert s == "name" || s == "email" || s == "skills";
    assert forall k :: 0 <= k < |s| ==> IsLetter(s[k]);
    LettersRepr(s);
    assert ("'" + s + "'")[1..1 + |s|] == s;
    assert OccursAt(s, PyRepr.StrRepr(s), 1);
  }

  /** The construction error names every reserved field that is missing. */
  lemma MissingMessageNames(keys: set<string>, s: string)
    requires s in Reserved && s !in keys
    ensures IsSubstring(s, MissingMessage(keys))
  {
    var names := MissingNames(keys);
    var i :| 0 <= i < |names| && names[i] == s;
    var q := Quoted(names);
    JoinHas(", ", q, i);
    ReservedInRepr(s);
    var body := Join(", ", q);
    SubstringOfSubstring(s, q[i], body);
    var msg := MissingMessage(keys);
    assert msg == (MissingPrefix + "{") + body + "}";
    assert msg[|MissingPrefix + "{"|..|MissingPrefix + "{"| + |body|] == body;
    assert OccursAt(body, msg, |MissingPrefix + "{"|);
    SubstringOfSubstring(s, body, msg);
  }

  // ---------------------------------------------------------------------
  // Properties of `extract`

  /** Blank text is refused, unwrapped, before any extractor runs. */
  lemma ExtractBlank<E>(m: map<string, E>, text: string,
                        textOf: (E, string) -> Result<string, Error>,
                        listOf: (E, string) -> Result<seq<string>, Error>)
    requires IsBlank(text)
    ensures ExtractRun(m, text, textOf, listOf) == Run(Err(ValueError(EmptyText)), [])
  {
    StripEmptyIffBlank(text);
  }

  /** A record comes back exactly when the text is not blank, the three
      reserved fields are present and their extractors all succeed; it
      holds their three outputs, and each of them ran once, in order. */
  lemma ExtractOk<E>(m: map<string, E>, text: string,
                     textOf: (E, string) -> Result<string, Error>,
                     listOf: (E, string) -> Result<seq<string>, Error>)
    ensures var r := ExtractRun(m, text, textOf, listOf);
      r.result.Ok? <==>
        && !IsBlank(text) && Reserved <= m.Keys
        && textOf(m["name"], text).Ok? && textOf(m["email"], text).Ok?
        && listOf(m["skills"], text).Ok?
    ensures var r := ExtractRun(m, text, textOf, listOf);
      r.result.Ok? ==>
        && r.called == Order
        && r.result.value == ResumeData(textOf(m["name"], text).value,
                                        textOf(m["email"], text).value,
                                        listOf(m["skills"], text).value)
  {
    StripEmptyIffBlank(text);
  }

  /** Whether the extractor stored under a reserved field succeeds. */
  function Outcome<E>(m: map<string, E>, key: string, text: string,
                      textOf: (E, string) -> Result<string, Error>,
                      listOf: (E, string) -> Result<seq<string>, Error>): (r: Result<(), Error>)
    requires key in m
    ensures key != "skills" ==> (r.Ok? <==> textOf(m[key], text).Ok?)
    ensures key != "skills" && r.Err? ==> r.error == textOf(m[key], text).error
    ensures key == "skills" ==> (r.Ok? <==> listOf(m[key], text).Ok?)
    ensures key == "skills" && r.Err? ==> r.error == listOf(m[key], text).error
  {
    if key == "skills" then
      (if listOf(m[key], text).Ok? then Ok(()) else Err(listOf(m[key], text).error))
    else
      (if textOf(m[key], text).Ok? then Ok(()) else Err(textOf(m[key], text).error))
  }

  /** On text that is not blank, the extractors called are a prefix of
      the reserved order, all present, and each but the last succeeded. */
  lemma ExtractCalls<E>(m: map<string, E>, text: string,
                        textOf: (E, string) -> Result<string, Error>,
                        listOf: (E, string) -> Result<seq<string>, Error>)
    requires !IsBlank(text)
    ensures var r := ExtractRun(m, text, textOf, listOf);
      && |r.called| <= 3 && r.called == Order[..|r.called|]
      && (forall j :: 0 <= j < |r.called| ==> Order[j] in m)
      && (forall j :: 0 <= j < |r.called| - 1 ==> Outcome(m, Order[j], text, textOf, listOf).Ok?)
  {
    StripEmptyIffBlank(text);
  }

  /** On text that is not blank, a failed run carries the prefixed error of
      the first thing that went wrong: the next key missing after all
      extractors called so far succeeded, or the last extractor called
      failing. */
  lemma ExtractFailure<E>(m: map<string, E>, text: string,
                          textOf: (E, string) -> Result<string, Error>,
                          listOf: (E, string) -> Result<seq<string>, Error>)
    requires !IsBlank(text)
    ensures var r := ExtractRun(m, text, textOf, listOf);
      var k := |r.called|;
      r.result.Err? ==>
        || (k < 3 && Order[k] !in m
            && (forall j :: 0 <= j < k ==> Order[j] in m && Outcome(m, Order[j], text, textOf, listOf).Ok?)
            && r.result.error == Wrap(ExtractPrefix, KeyError(Order[k])))
        || (0 < k <= 3 && Order[k - 1] in m && Outcome(m, Order[k - 1], text, textOf, listOf).Err?
            && r.result.error == Wrap(ExtractPrefix, Outcome(m, Order[k - 1], text, textOf, listOf).error))
  {
    StripEmptyIffBlank(text);
    var r := ExtractRun(m, text, textOf, listOf);
    if "name" !in m {
      assert r.called == [];
    } else if Outcome(m, "name", text, textOf, listOf).Err? {
      assert r.called == ["name"];
    } else if "email" !in m {
      assert r.called == ["name"];
    } else if Outcome(m, "email", text, textOf, listOf).Err? {
      assert r.called == ["name", "email"];
    } else if "skills" !in m {
      assert r.called == ["name", "email"];
    } else {
      assert r.called == Order;
    }
  }

  /** On text that is not blank, every error is a plain `Exception` whose
      message starts with the extraction prefix. */
  lemma ExtractPrefixed<E>(m: map<string, E>, text: string,
                           textOf: (E, string) -> Result<string, Error>,
                           listOf: (E, string) -> Result<seq<string>, Error>)
    requires !IsBlank(text)
    ensures var r := ExtractRun(m, text, textOf, listOf);
      r.result.Err? ==> r.result.error.Failure? && ExtractPrefix <= r.result.error.msg
  {
    StripEmptyIffBlank(text);
  }

  /** A reserved field that is missing makes every extraction from text
      that is not blank fail, and the extractors after it never run. */
  lemma MissingReservedFails<E>(m: map<string, E>, text: string, key: string,
                                textOf: (E, string) -> Result<string, Error>,
                                listOf: (E, string) -> Result<seq<string>, Error>)
    requires !IsBlank(text) && key in Reserved && key !in m
    ensures var r := ExtractRun(m, text, textOf, listOf);
      r.result.Err? && r.result.error.Failure? && key !in r.called
  {
    StripEmptyIffBlank(text);
  }

  /** Entries under fields other than the reserved ones play no part in
      extraction. */
  lemma ExtraKeysIrrelevant<E>(m1: map<string, E>, m2: map<string, E>, text: string,
                               textOf: (E, string) -> Result<string, Error>,
                               listOf: (E, string) -> Result<seq<string>, Error>)
    requires forall k :: k in Reserved ==> (k in m1 <==> k in m2)
    requires forall k :: k in Reserved && k in m1 ==> m1[k] == m2[k]
    ensures ExtractRun(m1, text, textOf, listOf) == ExtractRun(m2, text, textOf, listOf)
  {
    assert "name" in Reserved && "email" in Reserved && "skills" in Reserved;
  }

  // ---------------------------------------------------------------------
  // Properties of the dict operations

  /** Upserting grows the dict by one exactly when the key is new. */
  lemma UpsertSize<E>(m: map<string, E>, key: string, e: E)
    ensures |m[key := e]| == if key in m then |m| else |m| + 1
    ensures m[key := e][key] == e
  {
    var m' := m[key := e];
    if key in m {
      assert m'.Keys == m.Keys;
    } else {
      assert m'.Keys == m.Keys + {key};
    }
  }

  /** Removing a present key shrinks the dict by one. */
  lemma RemoveSize<E>(m: map<string, E>, key: string)
    requires key in m
    ensures |m - {key}| == |m| - 1
  {
    assert (m - {key}).Keys == m.Keys - {key};
  }
}
