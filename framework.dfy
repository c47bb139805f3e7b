/** `ResumeParserFramework`: a file parser and a coordinator behind one
    call. The parser is any value of the type parameter `P`; what its
    `parse` gives for a path is the oracle `parse`. The coordinator is the
    modelled `ResumeExtractor`, whose extractors are given by the oracles
    `textOf` and `listOf` as in its own module. */
module Framework {
  import opened Wrappers
  import opened Strings
  import opened Errors
  import opened ResumeRecord
  import opened Coordinator

  const NotFoundPrefix: string := "Resume file not found: "
  const ParsePrefix: string := "Failed to parse file: "

  /** `parse_resume(path)` as a function of what the file system, the
      parser and the coordinator's dict give: the existence check raised
      as it is, then the parser's error and the coordinator's error, each
      under its own prefix. */
  function ParseResumeSpec<E>(path: string, pathExists: string -> bool, parsed: Result<string, Error>,
                              m: map<string, E>,
                              textOf: (E, string) -> Result<string, Error>,
                              listOf: (E, string) -> Result<seq<string>, Error>): Result<ResumeData, Error>
  {
    if !pathExists(path) then Err(FileNotFoundError(NotFoundPrefix + path))
    else
      match parsed
      case Err(e) => Err(Wrap(ParsePrefix, e))
      case Ok(text) =>
        match ExtractRun(m, text, textOf, listOf).result
        case Err(e) => Err(Wrap(ExtractPrefix, e))
        case Ok(record) => Ok(record)
  }

  class ResumeParserFramework<P, E> {
    var fileParser: P
    var resumeExtractor: ResumeExtractor<E>

    /** `__init__` stores the two collaborators it is given. */
    constructor (fileParser: P, resumeExtractor: ResumeExtractor<E>)
      ensures this.fileParser == fileParser && this.resumeExtractor == resumeExtractor
    {
      this.fileParser := fileParser;
      this.resumeExtractor := resumeExtractor;
    }

    /** `parse_resume(path)`: what `ParseResumeSpec` describes for the
        current parser and coordinator. `parserRan` and `extractorRan`
        say which collaborators were called. */
    method ParseResume(path: string, pathExists: string -> bool,
                       parse: (P, string) -> Result<string, Error>,
                       textOf: (E, string) -> Result<string, Error>,
                       listOf: (E, string) -> Result<seq<string>, Error>)
      returns (result: Result<ResumeData, Error>, parserRan: bool, extractorRan: bool)
      ensures result == ParseResumeSpec(path, pathExists, parse(fileParser, path),
                                        resumeExtractor.fieldExtractors.entries, textOf, listOf)
      ensures parserRan <==> pathExists(path)
      ensures extractorRan <==> pathExists(path) && parse(fileParser, path).Ok?
    {
      if !pathExists(path) {
        return Err(FileNotFoundError(NotFoundPrefix + path)), false, false;
      }
      var text := parse(fileParser, path);
      if text.Err? {
        return Err(Wrap(ParsePrefix, text.error)), true, false;
      }
      var data, called := resumeExtractor.Extract(text.value, textOf, listOf);
      if data.Err? {
        return Err(Wrap(ExtractPrefix, data.error)), true, true;
      }
      return data, true, true;
    }

    /** `set_parser(p)` replaces the parser and nothing else. */
    method SetParser(p: P)
      modifies this
      ensures fileParser == p && resumeExtractor == old(resumeExtractor)
    {
      fileParser := p;
    }

    /** `set_extractor(c)` replaces the coordinator and nothing else. */
    method SetExtractor(c: ResumeExtractor<E>)
      modifies this
      ensures resumeExtractor == c && fileParser == old(fileParser)
    {
      resumeExtractor := c;
    }
  }

  // ---------------------------------------------------------------------
  // Properties

  /** A path that does not exist is refused with an unwrapped
      `FileNotFoundError`, whatever the parser would have done. */
  lemma MissingFile<E>(path: string, pathExists: string -> bool, parsed: Result<string, Error>,
                       m: map<string, E>,
                       textOf: (E, string) -> Result<string, Error>,
                       listOf: (E, string) -> Result<seq<string>, Error>)
    requires !pathExists(path)
    ensures ParseResumeSpec(path, pathExists, parsed, m, textOf, listOf) == Err(FileNotFoundError(NotFoundPrefix + path))
  {
  }

  /** A record comes back exactly when the file exists, the parser gives a
      text and the coordinator gives a record for it; it is that record. */
  lemma ParseResumeOk<E>(path: string, pathExists: string -> bool, parsed: Result<string, Error>,
                         m: map<string, E>,
                         textOf: (E, string) -> Result<string, Error>,
                         listOf: (E, string) -> Result<seq<string>, Error>)
    ensures var r := ParseResumeSpec(path, pathExists, parsed, m, textOf, listOf);
      r.Ok? <==> pathExists(path) && parsed.Ok? && ExtractRun(m, parsed.value, textOf, listOf).result.Ok?
    ensures var r := ParseResumeSpec(path, pathExists, parsed, m, textOf, listOf);
      r.Ok? ==> r == ExtractRun(m, parsed.value, textOf, listOf).result
  {
  }

  /** Every failure after the existence check is a plain `Exception` under
      the prefix of its stage: the parser's own message, or the
      coordinator's error shown after a second extraction prefix. */
  lemma ParseResumeFailure<E>(path: string, pathExists: string -> bool, parsed: Result<string, Error>,
                              m: map<string, E>,
                              textOf: (E, string) -> Result<string, Error>,
                              listOf: (E, string) -> Result<seq<string>, Error>)
    requires pathExists(path)
    ensures var r := ParseResumeSpec(path, pathExists, parsed, m, textOf, listOf);
      parsed.Err? ==> r == Err(Failure(ParsePrefix + Message(parsed.error)))
    ensures parsed.Ok? ==>
      var r := ParseResumeSpec(path, pathExists, parsed, m, textOf, listOf);
      var run := ExtractRun(m, parsed.value, textOf, listOf);
      run.result.Err? ==> r == Err(Failure(ExtractPrefix + Message(run.result.error)))
  {
  }

  /** Blank text from the parser reaches the coordinator, whose own
      `ValueError` comes out under the extraction prefix. */
  lemma BlankText<E>(path: string, pathExists: string -> bool, text: string,
                     m: map<string, E>,
                     textOf: (E, string) -> Result<string, Error>,
                     listOf: (E, string) -> Result<seq<string>, Error>)
    requires pathExists(path) && IsBlank(text)
    ensures ParseResumeSpec(path, pathExists, Ok(text), m, textOf, listOf) == Err(Failure(ExtractPrefix + EmptyText))
  {
    ExtractBlank(m, text, textOf, listOf);
  }

  /** A failure inside the coordinator's `try` is wrapped twice: its
      message starts with the extraction prefix written two times. */
  lemma DoublePrefix<E>(path: string, pathExists: string -> bool, text: string,
                        m: map<string, E>,
                        textOf: (E, string) -> Result<string, Error>,
                        listOf: (E, string) -> Result<seq<string>, Error>)
    requires pathExists(path) && !IsBlank(text)
    requires ExtractRun(m, text, textOf, listOf).result.Err?
    ensures var r := ParseResumeSpec(path, pathExists, Ok(text), m, textOf, listOf);
      r.Err? && r.error.Failure? && ExtractPrefix + ExtractPrefix <= r.error.msg
  {
    ExtractPrefixed(m, text, textOf, listOf);
    var e := ExtractRun(m, text, textOf, listOf).result.error;
    assert e.Failure? && ExtractPrefix <= e.msg;
    var msg := ExtractPrefix + Message(e);
    assert msg[..|ExtractPrefix + ExtractPrefix|] == ExtractPrefix + ExtractPrefix;
  }
}
