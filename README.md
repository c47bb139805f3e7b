# Resume parser: a verified model of the extraction pipeline

A Dafny model of the core of `resume_parser`, a Python library that turns a
resume file (PDF or Word) into a record of three fields: the candidate's
name, e-mail address and technical skills. The pipeline has four parts.

- **Document readers.** `PDFParser.parse` and `WordParser.parse` check the
  path, collect the non-empty page or paragraph texts and join them with new
  lines.
- **Field extractors.** `NameExtractor` is a line heuristic with two name
  patterns and a cleaned-up fallback. `EmailExtractor` finds the first
  e-mail address. `SkillsExtractor` asks a remote language model for a JSON
  list, and searches a fixed catalogue of 45 skills when the call fails.
- **Coordinator.** `ResumeExtractor` holds a dict from field names to
  extractors, checks that `name`, `email` and `skills` are present, calls
  them in that order and wraps every failure.
- **Facade.** `ResumeParserFramework` runs the file check, the parser and
  the coordinator, each failure under its own prefix.

The output type `ResumeData` comes with `to_dict`, `to_json`, `__str__`
and `__repr__`.

The model keeps the source's form.
- The coordinator's dict is an object, `Coordinator.ExtractorTable`,
  shared by reference between the caller and the coordinator. `Add` and
  `Remove` of `Coordinator.ResumeExtractor` change its `entries`; the
  coordinator's own field pointing at it never changes.
- The facade, `Framework.ResumeParserFramework`, is a class whose
  `SetParser` and `SetExtractor` replace its two fields.
- The skills extractor, `Skills.SkillsExtractor`, is a class whose
  constructor sets the key and the model name. Its methods `Extract` and
  `Fallback` only read them.
- The loops of the document readers, of the name search and of the skills
  fallback are `while` loops. Each is proved equal to a specification
  function.
- The rest are functions.

Everything outside the program is a parameter:
- the file system's `Path.exists`, as `pathExists`;
- what the PDF or Word library reads from a file;
- the remote model's reply;
- the value of the `GEMINI_API_KEY` environment variable;
- what each registered extractor returns, as `textOf` and `listOf`.

Python's own behaviour is written out where the program depends on it:
- `str.strip`, `str.split`, `str.join` and `str.lower`;
- `repr` of strings and lists, and `str()` of exceptions;
- `pathlib`'s `name` and `suffix`;
- the seven regular expressions, as scanners over character-class
  predicates;
- `json.dumps` with an indent, and `json.loads` for null, booleans,
  integers, strings, lists and dicts. Decoding is proved to invert
  encoding for every value whose dicts have distinct keys.

Modules: `Wrappers` (Option, Result), `Strings`, `PyRepr`, `Errors`, `Json`,
`JsonRoundTrip`, `ResumeRecord`, `NameExtractor`, `EmailExtractor`,
`Skills`, `Coordinator`, `Paths`, `PdfParser`, `WordParser`, `Framework`.

## Model

| member | source | states |
|---|---|---|
| ResumeRecord.ToDict | resume_parser/models/resume_data.py:17-25 | the dict has exactly the keys `name`, `email`, `skills` in that order, each mapped to its field; skills as the same list, order and duplicates kept |
| ResumeRecord.DictRoundTrip | resume_parser/models/resume_data.py:20-25 | reading the three fields back from `to_dict()` gives the record unchanged |
| ResumeRecord.ToDictWellFormed | resume_parser/models/resume_data.py:20-25 | `to_dict()` is a dict with distinct keys, so it can be encoded and decoded faithfully |
| ResumeRecord.StrItemsOfStrArray | resume_parser/models/resume_data.py:19-25 | a list of strings read back from its JSON array is the same list |
| ResumeRecord.ToJson | resume_parser/models/resume_data.py:27-33 | decoding `to_json(indent)` gives exactly `to_dict()`, for every indent |
| ResumeRecord.JsonRecordRoundTrip | resume_parser/models/resume_data.py:27-33 | the name, email and skills decoded from `to_json(indent)` are the record's own |
| ResumeRecord.Str | resume_parser/models/resume_data.py:35-37 | `str(record)` is `to_json()` with indent 2, and decoding it gives the record back |
| ResumeRecord.Repr | resume_parser/models/resume_data.py:39-41 | `repr(record)`; its meaning is stated by `ReprRoundTrip` (read back when the name and email hold no single quote) and `ReprNotInjective` (not otherwise) |
| ResumeRecord.ReprRoundTrip | resume_parser/models/resume_data.py:39-41 | when name and email have no single quote, the record can be read back from `repr(record)` |
| ResumeRecord.ReprNotInjective | resume_parser/models/resume_data.py:39-41 | name and email are not escaped: two different records have the same `repr` |
| Json.Dumps | resume_parser/models/resume_data.py:33 | `json.dumps(v, indent=n)`; `DumpsLoads` states that `Loads` inverts it |
| Json.Loads | resume_parser/extractors/skills_extractor.py:131 | `json.loads(t)` for null, booleans, integers, strings, lists and dicts; `DumpsLoads` states that it inverts `Dumps` |
| JsonRoundTrip.DumpsLoads | resume_parser/models/resume_data.py:33 | `json.loads(json.dumps(v, indent=n)) == v` for every value whose dicts have distinct keys |
| JsonRoundTrip.EncodeThenParse | resume_parser/models/resume_data.py:33 | the encoding of any value, followed by a delimiter, parses back to that value and leaves the rest |
| JsonRoundTrip.StringThenParse | resume_parser/models/resume_data.py:33 | a string encoded with `ensure_ascii` escapes, surrogate pairs included, parses back to itself |
| JsonRoundTrip.IntThenParse | resume_parser/models/resume_data.py:33 | an integer's decimal form parses back to that integer |
| PyRepr.StrReprRoundTrip | resume_parser/models/resume_data.py:41 | evaluating `repr(s)` as a string literal gives `s` back |
| PyRepr.StrListReprRoundTrip | resume_parser/models/resume_data.py:41 | evaluating `repr(xs)` of a list of strings as a list literal gives `xs` back |
| Errors.Message | resume_parser/core/resume_extractor.py:58-59 | `str(e)` is the message for every error except `KeyError`, whose `str` is a string literal that evaluates back to the key |
| Strings.LowerFolds | resume_parser/extractors/skills_extractor.py:160-163 | `lower()` leaves no capital and changes nothing but capitals; applying it twice is the same as once; a string is its own lower case exactly when it has no capital |
| Strings.StripEmptyIffBlank | resume_parser/extractors/name_extractor.py:23 | `s.strip()` is empty exactly when every character of `s` is whitespace |
| Strings.StripShape | resume_parser/extractors/name_extractor.py:26 | `strip()` removes exactly the leading and trailing whitespace; a non-empty result starts and ends with non-whitespace |
| Strings.SplitJoin | resume_parser/extractors/name_extractor.py:26 | `'\n'.join(s.split('\n')) == s`, and no piece holds a newline |
| Strings.JoinBlank | resume_parser/parsers/pdf_parser.py:43-45 | joining with a whitespace separator gives whitespace only exactly when every part is whitespace only |
| Strings.SqueezeProperties | resume_parser/extractors/name_extractor.py:61 | `' '.join(s.split())` has single spaces between words and none at the ends; it is empty exactly when `s` is blank; every character is a space or taken from `s` |
| NameExtractor.NameOf | resume_parser/extractors/name_extractor.py:17-71 | what `extract` returns; `NameOfCases`, `FirstMatchWins`, `NoMatchFallback`, `OnlyFirstFive` and `NoAtSign` state its meaning, and the method `Extract` is proved to compute it |
| NameExtractor.Extract | resume_parser/extractors/name_extractor.py:17-71 | the loop over the first five lines and the reassignments of `first_line` compute `NameOf(text)` |
| NameExtractor.BlankIsUnknown | resume_parser/extractors/name_extractor.py:23-28 | blank text gives `"Unknown"`; other text always has a non-empty line |
| NameExtractor.LinesUnpadded | resume_parser/extractors/name_extractor.py:26 | every selected line is stripped: non-empty, no whitespace at either end |
| NameExtractor.LinesEmptyIffBlank | resume_parser/extractors/name_extractor.py:26-28 | there are no lines exactly when the text is blank |
| NameExtractor.Head | resume_parser/extractors/name_extractor.py:31 | `lines[:5]`: the first five lines, or all of them when there are fewer |
| NameExtractor.StrictTokens | resume_parser/extractors/name_extractor.py:34-35 | the strict pattern matches exactly a stripped line of 2 to 4 whitespace-separated words, each a capital then lower-case letters |
| NameExtractor.AltTokens | resume_parser/extractors/name_extractor.py:41-42 | the second pattern matches exactly a stripped line of a capitalised word, an optional initial with optional period, then one or more capitalised words |
| NameExtractor.StrictWithinAlt | resume_parser/extractors/name_extractor.py:34-44 | every line the strict pattern accepts is also accepted by the second pattern |
| NameExtractor.FirstMatchWins | resume_parser/extractors/name_extractor.py:31-44 | the first of the first five lines that matches a pattern is returned verbatim |
| NameExtractor.NoMatchFallback | resume_parser/extractors/name_extractor.py:46-71 | when none of the first five lines matches, the result is the fallback on the lines |
| NameExtractor.OnlyFirstFive | resume_parser/extractors/name_extractor.py:26-71 | texts whose first five lines agree give the same name: no line after the fifth is ever looked at |
| NameExtractor.EmailLikeReduced | resume_parser/extractors/name_extractor.py:51-52 | the e-mail test holds exactly when the line has `@` or a local character, optional whitespace and `mail`, `yahoo` or `outlook` in any case |
| NameExtractor.ScrubProperties | resume_parser/extractors/name_extractor.py:60 | the cleanup keeps the length, keeps word, whitespace and period characters in place and leaves nothing else |
| NameExtractor.VetTidy | resume_parser/extractors/name_extractor.py:59-71 | a cleaned candidate is either `"Unknown"` or squeezed, 1 to 50 characters, without a 3-digit run, two periods or a removed character |
| NameExtractor.FallbackShape | resume_parser/extractors/name_extractor.py:48-71 | the fallback, on the first or the second line, is `"Unknown"` or a vetted cleaned candidate |
| NameExtractor.DotPairSqueezed | resume_parser/extractors/name_extractor.py:64 | on a cleaned line `\..*\.` finds a match exactly when the line has two periods |
| NameExtractor.NameOfCases | resume_parser/extractors/name_extractor.py:23-71 | the result is `"Unknown"`, a line that matches a name pattern, or the fallback |
| NameExtractor.NoAtSign | resume_parser/extractors/name_extractor.py:34-71 | the result never contains `@` |
| NameExtractor.NameOfLoneEmail | resume_parser/extractors/name_extractor.py:50-57 | a single line with `@` that is not a name gives `"Unknown"` |
| NameExtractor.NoName | resume_parser/extractors/name_extractor.py:34-41 | a line starting with a lower-case letter matches neither pattern |
| NameExtractor.ScenarioBasic | tests/test_extractors.py:13-18 | `"John Doe\nEmail: john@example.com\nSkills: Python, Java"` gives `"John Doe"` |
| NameExtractor.ScenarioMiddleInitial | tests/test_extractors.py:20-25 | `"Jane M. Smith\nSoftware Engineer"` gives `"Jane M. Smith"` |
| NameExtractor.ScenarioEmpty | tests/test_extractors.py:27-31 | `""` gives `"Unknown"` |
| NameExtractor.ScenarioThreeNames | tests/test_extractors.py:33-38 | `"John Michael Smith\nDeveloper"` gives `"John Michael Smith"` |
| NameExtractor.ScenarioEmailFirst | tests/test_extractors.py:40-47 | `"lei.ming296 gmail.com\nLei Ming\nSoftware Engineer"` gives `"Lei Ming"` |
| NameExtractor.ScenarioAtSign | tests/test_extractors.py:49-55 | `"john.doe@example.com\nJohn Doe\nDeveloper"` gives `"John Doe"` |
| NameExtractor.ScenarioNumbers | tests/test_extractors.py:57-62 | `"user12345\nJane Smith\nEngineer"` gives `"Jane Smith"` |
| NameExtractor.ScenarioOnlyEmail | resume_parser/extractors/name_extractor.py:50-57 | a text that is one e-mail address gives `"Unknown"` |
| EmailExtractor.MatchAtSound | resume_parser/extractors/email_extractor.py:21 | a match found at a position is `local@domain.tld` in the text |
| EmailExtractor.MatchAtComplete | resume_parser/extractors/email_extractor.py:21 | every occurrence of the pattern's shape at a position is found there, with an end at least as far |
| EmailExtractor.MatchAtLongest | resume_parser/extractors/email_extractor.py:21 | the match at a position is the longest one starting there (greedy quantifiers) |
| EmailExtractor.MatchAtNone | resume_parser/extractors/email_extractor.py:21 | no match at a position exactly when no substring starting there has the shape |
| EmailExtractor.FirstMatchSound | resume_parser/extractors/email_extractor.py:33-37 | the first match of `findall` starts leftmost and is longest at that start |
| EmailExtractor.FirstMatchComplete | resume_parser/extractors/email_extractor.py:33-37 | a leftmost-longest match is the one `findall` gives first |
| EmailExtractor.FirstMatchNone | resume_parser/extractors/email_extractor.py:33-40 | there is no first match exactly when no substring of the text has the shape |
| EmailExtractor.ExtractBlank | resume_parser/extractors/email_extractor.py:29-30 | blank text gives `unknown@example.com` |
| EmailExtractor.ExtractNoMatch | resume_parser/extractors/email_extractor.py:35-40 | text without an address gives `unknown@example.com` |
| EmailExtractor.ExtractNoAt | resume_parser/extractors/email_extractor.py:21-40 | text without `@` gives `unknown@example.com` |
| EmailExtractor.ExtractLeftmostLongest | resume_parser/extractors/email_extractor.py:29-37 | on non-blank text the result is the leftmost, then longest, match |
| EmailExtractor.ExtractFound | resume_parser/extractors/email_extractor.py:33-37 | non-blank text with an address gives the slice of a leftmost-longest match |
| EmailExtractor.Extract | resume_parser/extractors/email_extractor.py:23-40 | whatever the text, the result has the address shape, and it is the sentinel or occurs in the text |
| EmailExtractor.EmailOneAt | resume_parser/extractors/email_extractor.py:21 | an address has exactly one `@` |
| EmailExtractor.SentinelIsEmail | resume_parser/extractors/email_extractor.py:40 | the sentinel itself has the address shape |
| EmailExtractor.EmailInContext | resume_parser/extractors/email_extractor.py:21-37 | an address set off by non-address characters, with no `@` before it, is what is extracted |
| EmailExtractor.ScenarioBasic | tests/test_extractors.py:68-73 | `"Contact me at john.doe@example.com for more info"` gives `"john.doe@example.com"` |
| EmailExtractor.ScenarioFirstOfTwo | tests/test_extractors.py:75-80 | `"john@example.com or jane@example.com"` gives `"john@example.com"` |
| EmailExtractor.ScenarioSubdomains | tests/test_extractors.py:95-100 | `"Email: jane.doe+resume@company-name.co.uk"` gives the whole address |
| EmailExtractor.ScenarioNoEmail | tests/test_extractors.py:82-87 | `"No email address here"` gives `unknown@example.com` |
| Skills.ResolveKey | resume_parser/extractors/skills_extractor.py:63-66 | the explicit key if non-empty, else the environment value if non-empty, else `ValueError` with the source's message |
| Skills.New | resume_parser/extractors/skills_extractor.py:56-71 | construction succeeds exactly when a key resolves and the model library was imported (the import at lines 10-14); it stores the key and the given model name, or the default one; without a key it raises the `ValueError`, without the library the `AttributeError` of `genai.configure` |
| Skills.SkillsExtractor.constructor | resume_parser/extractors/skills_extractor.py:63-70 | stores the resolved key and the model name |
| Skills.SkillsExtractor.Extract | resume_parser/extractors/skills_extractor.py:85-119 | `extract` computes `ExtractSpec(text, reply)` for the reply of the remote call |
| Skills.ExtractSpec | resume_parser/extractors/skills_extractor.py:85-119 | the result of `extract` for each reply of the remote call; `ExtractBlank` and `ExtractOutcomes` state its cases |
| Skills.ExtractBlank | resume_parser/extractors/skills_extractor.py:85 | blank text gives `[]` whatever the remote model would have said |
| Skills.ExtractOutcomes | resume_parser/extractors/skills_extractor.py:109-119 | a failing call gives the catalogue fallback; no response or empty text gives `[]`; a text reply gives its parse |
| Skills.BracketSpan | resume_parser/extractors/skills_extractor.py:127-130 | the span of `\[.*?\]` with DOTALL starts at a `[` and is at least two characters long; `BracketSpanSome` and `BracketSpanNone` state which span it is |
| Skills.BracketSpanSome | resume_parser/extractors/skills_extractor.py:127-130 | the span runs from the first `[` to the first `]` after it |
| Skills.BracketSpanNone | resume_parser/extractors/skills_extractor.py:127-135 | there is no span exactly when no `[` is followed later by `]` |
| Skills.Clean | resume_parser/extractors/skills_extractor.py:134 | the comprehension gives no more strings than there are elements; `CleanMember` states which strings |
| Skills.CleanConcat | resume_parser/extractors/skills_extractor.py:134 | the comprehension works element by element |
| Skills.CleanMember | resume_parser/extractors/skills_extractor.py:134 | a string is in the result exactly when it is `str(x).strip()` for a truthy element `x` |
| Skills.CleanStrings | resume_parser/extractors/skills_extractor.py:134 | a list of non-empty stripped strings comes out unchanged |
| Skills.ParseSkills | resume_parser/extractors/skills_extractor.py:121-138 | `_parse_skills_from_response`; `BracketSpanSome`, `CleanMember` and `ParseSkillsOfDumps` state its meaning |
| Skills.ParseSkillsOfDumps | resume_parser/extractors/skills_extractor.py:121-138 | a reply holding a JSON list of non-empty stripped strings without `]`, after text without `[`, parses to that list |
| Skills.SkillsExtractor.Fallback | resume_parser/extractors/skills_extractor.py:159-166 | the loop collects `Found(text, Catalogue, 45)` |
| Skills.Found | resume_parser/extractors/skills_extractor.py:159-166 | the mentioned catalogue entries, at most as many as were searched; `FoundMember` and `FoundSubsequence` state which and in what order |
| Skills.FoundMember | resume_parser/extractors/skills_extractor.py:162-164 | a skill is found exactly when it is in the catalogue and its lower-case form occurs in the lower-cased text |
| Skills.FoundSubsequence | resume_parser/extractors/skills_extractor.py:162-166 | the fallback output is a subsequence of the catalogue, in catalogue order |
| Skills.FoundDistinct | resume_parser/extractors/skills_extractor.py:162-166 | a catalogue without duplicates gives output without duplicates |
| Skills.CatalogueDistinct | resume_parser/extractors/skills_extractor.py:147-156 | the 45 catalogue entries are distinct |
| Skills.FallbackBounds | resume_parser/extractors/skills_extractor.py:147-166 | the fallback output has no duplicates and at most 45 entries |
| Skills.JavaScriptGivesJava | resume_parser/extractors/skills_extractor.py:148-164 | whenever `JavaScript` is found, so is `Java` |
| Skills.FoundIgnoresCase | resume_parser/extractors/skills_extractor.py:160-163 | lower-casing the text first changes nothing |
| Skills.FoundNamed | resume_parser/extractors/skills_extractor.py:162-164 | a catalogue entry written into the text is found |
| Skills.FallbackFindsPython | tests/test_extractors.py:152-169 | the fallback on the test's whole three-line resume text, leading new line and indentation included, finds `Python`, which meets the test's assertion |
| Skills.FallbackFindsMachineLearning | tests/test_extractors.py:155-159 | the fallback on the same text finds `Machine Learning` |
| Coordinator.MissingNames | resume_parser/core/resume_extractor.py:27-31 | the missing names are exactly the reserved fields not among the keys; none are missing exactly when all three are present |
| Coordinator.MissingMessage | resume_parser/core/resume_extractor.py:31-32 | the construction error's message; `MissingMessageNames` states that it names every missing field |
| Coordinator.MissingMessageNames | resume_parser/core/resume_extractor.py:31-32 | the construction error's message names every missing reserved field |
| Coordinator.New | resume_parser/core/resume_extractor.py:21-34 | construction succeeds exactly when all three reserved keys are present, and stores the given dict itself; otherwise `ValueError` with the missing-fields message |
| Coordinator.ResumeExtractor.constructor | resume_parser/core/resume_extractor.py:30-34 | stores the given dict by reference, which has all the reserved keys |
| Coordinator.ExtractRun | resume_parser/core/resume_extractor.py:36-59 | one run of `extract` over a dict; `ExtractBlank`, `ExtractOk`, `ExtractCalls`, `ExtractFailure` and `ExtraKeysIrrelevant` state its meaning |
| Coordinator.ResumeExtractor.Extract | resume_parser/core/resume_extractor.py:36-59 | `extract` gives the result and the calls that `ExtractRun` describes for the current dict |
| Coordinator.ExtractBlank | resume_parser/core/resume_extractor.py:42-43 | blank text raises an unwrapped `ValueError` and no extractor is called |
| Coordinator.ExtractOk | resume_parser/core/resume_extractor.py:45-56 | a record comes back exactly when the text is not blank, all three keys are present and all three calls succeed; it holds their outputs and the calls were name, email, skills |
| Coordinator.ExtractCalls | resume_parser/core/resume_extractor.py:47-49 | the extractors called are a prefix of name, email, skills, all present, each but the last successful |
| Coordinator.ExtractFailure | resume_parser/core/resume_extractor.py:45-59 | each failure is a missing next key (wrapped `KeyError`) or the last call's error, wrapped, with later extractors not called |
| Coordinator.ExtractPrefixed | resume_parser/core/resume_extractor.py:58-59 | on non-blank text every error is a plain `Exception` under the extraction prefix |
| Coordinator.MissingReservedFails | resume_parser/core/resume_extractor.py:47-59 | a removed reserved key makes extraction fail, and its extractor is not called |
| Coordinator.ExtraKeysIrrelevant | resume_parser/core/resume_extractor.py:47-49 | dicts that agree on the reserved keys give the same extraction |
| Coordinator.ResumeExtractor.Add | resume_parser/core/resume_extractor.py:61-68 | upserts the key in the shared dict; a complete registry stays complete |
| Coordinator.UpsertSize | resume_parser/core/resume_extractor.py:68 | the size grows by one exactly when the key was new, and the key maps to the new extractor |
| Coordinator.ResumeExtractor.Remove | resume_parser/core/resume_extractor.py:70-78 | deletes a present key and nothing else; an absent key raises `KeyError` "not found" and changes nothing; removing a reserved key leaves the registry incomplete |
| Coordinator.RemoveSize | resume_parser/core/resume_extractor.py:76 | removing a present key shrinks the dict by one |
| Coordinator.ResumeExtractor.Get | resume_parser/core/resume_extractor.py:80-89 | returns the stored extractor exactly when the key is present, else `KeyError` "not found"; changes nothing |
| Framework.ResumeParserFramework.constructor | resume_parser/core/framework.py:21-28 | stores exactly the given parser and coordinator |
| Framework.ParseResumeSpec | resume_parser/core/framework.py:30-57 | `parse_resume` over its collaborators' answers; `MissingFile`, `ParseResumeOk`, `ParseResumeFailure`, `BlankText` and `DoublePrefix` state its meaning |
| Framework.ResumeParserFramework.ParseResume | resume_parser/core/framework.py:30-57 | `parse_resume` gives `ParseResumeSpec` for the current parser and coordinator; the parser runs exactly when the file exists, the coordinator exactly when the parser succeeded too |
| Framework.MissingFile | resume_parser/core/framework.py:41-43 | a missing file raises an unwrapped `FileNotFoundError`, whatever the parser would do |
| Framework.ParseResumeOk | resume_parser/core/framework.py:46-57 | a record comes back exactly when the file exists, the parser succeeds and the coordinator succeeds on its text; it is the coordinator's record |
| Framework.ParseResumeFailure | resume_parser/core/framework.py:46-55 | a parser failure is `"Failed to parse file: " + str(e)`; a coordinator failure is `"Failed to extract resume data: " + str(e)` |
| Framework.BlankText | resume_parser/core/framework.py:52-55 | blank parsed text surfaces as the coordinator's empty-text message under the extraction prefix |
| Framework.DoublePrefix | resume_parser/core/framework.py:52-55 | an error inside the coordinator's `try` carries the extraction prefix twice |
| Framework.ResumeParserFramework.SetParser | resume_parser/core/framework.py:59-65 | replaces the parser and leaves the coordinator |
| Framework.ResumeParserFramework.SetExtractor | resume_parser/core/framework.py:67-73 | replaces the coordinator and leaves the parser |
| Paths.Name | resume_parser/parsers/pdf_parser.py:30 | a name holds no slash; `NameOfPath` shows it is the last component of the path |
| Paths.Suffix | resume_parser/parsers/pdf_parser.py:30 | a suffix is empty, or a dot and at least one more character with no further dot or slash |
| Paths.SuffixOf | resume_parser/parsers/pdf_parser.py:30 | a file name with a non-empty stem and a one-dot extension has that suffix, in any directory and with trailing slashes |
| Paths.NameOfPath | resume_parser/parsers/pdf_parser.py:25-30 | the name of a path is its last component, trailing slashes ignored |
| PdfParser.ParseSpec | resume_parser/parsers/pdf_parser.py:19-51 | `parse` over the document's page texts; `ParseChecks`, `ParseEmpty` and `ParseText` state its meaning |
| PdfParser.Parse | resume_parser/parsers/pdf_parser.py:19-51 | the checks and the page loop compute `ParseSpec` |
| PdfParser.PageTextsConcat | resume_parser/parsers/pdf_parser.py:37-40 | the page filter works page by page |
| PdfParser.PageTextsMember | resume_parser/parsers/pdf_parser.py:37-40 | a text is collected exactly when it is non-empty and some page has it |
| PdfParser.ParseChecks | resume_parser/parsers/pdf_parser.py:27-51 | a missing file, then a wrong suffix, raise unwrapped; a read failure is wrapped |
| PdfParser.ParseEmpty | resume_parser/parsers/pdf_parser.py:43-51 | a read document fails exactly when every collected page text is whitespace, with the wrapped empty-document message |
| PdfParser.ParseText | resume_parser/parsers/pdf_parser.py:43-48 | a result is the page texts joined by `'\n'` and has a non-whitespace character |
| PdfParser.PdfAnyCase | resume_parser/parsers/pdf_parser.py:30 | the extension is compared in any case |
| PdfParser.UpperCasePdf | resume_parser/parsers/pdf_parser.py:30 | `resume.PDF` is accepted |
| PdfParser.HiddenPdf | resume_parser/parsers/pdf_parser.py:30 | a file named just `.pdf` has no suffix and is refused |
| WordParser.HeaderParagraphs | resume_parser/parsers/word_parser.py:40-44 | the nested loops collect the non-blank header paragraphs, section after section |
| WordParser.ParseSpec | resume_parser/parsers/word_parser.py:19-60 | `parse` over the document's paragraphs; `ParseChecks`, `ParseEmpty`, `ParseText` and `CollectedOrder` state its meaning |
| WordParser.Parse | resume_parser/parsers/word_parser.py:19-60 | the checks and both loops compute `ParseSpec` |
| WordParser.KeptConcat | resume_parser/parsers/word_parser.py:43-49 | the paragraph filter works paragraph by paragraph |
| WordParser.KeptMember | resume_parser/parsers/word_parser.py:43-49 | a paragraph is kept exactly when it is non-blank, and it is kept untrimmed |
| WordParser.CollectedOrder | resume_parser/parsers/word_parser.py:39-49 | all header paragraphs come before all body paragraphs, each in order |
| WordParser.ParseChecks | resume_parser/parsers/word_parser.py:27-60 | a missing file, then a suffix other than `.docx`/`.doc`, raise unwrapped; a read failure is wrapped |
| WordParser.ParseEmpty | resume_parser/parsers/word_parser.py:52-60 | a read document fails exactly when no paragraph is kept, with the wrapped empty-document message |
| WordParser.ParseText | resume_parser/parsers/word_parser.py:52-57 | a result is the kept paragraphs joined by `'\n'` and has a non-whitespace character |

## Left out

- The remote language model is an oracle value (`Skills.Reply`). The
  prompt text, the effect of `genai.configure` and the model object are
  not modelled; the model name is only stored. Whether
  `google.generativeai` could be imported is the parameter
  `libraryLoaded` of `Skills.New`.
- The warning printed when the remote call fails is output only and is
  not modelled.
- pdfplumber and python-docx are oracles. A document is given as per-page
  optional texts, or as header and body paragraph texts. A failure to read
  is one error for the whole document.
- `Path.exists` is the parameter `pathExists`. `pathlib` is modelled for
  `/`-separated paths only. `.` components and Windows separators are not
  normalised.
- Paths.Suffix follows `pathlib` up to Python 3.13: a name ending in a
  dot has no suffix. From Python 3.14 its suffix is `"."`. Neither value
  is `.pdf`, `.docx` or `.doc`, so the parsers behave alike.
- The environment variable and the `.env` search of the configuration
  module are the parameter `env` of `Skills.ResolveKey`.
- Letters, digits, `\w` and `str.lower()` are ASCII: non-ASCII letters and
  digits are not word characters here, and `lower()` changes only `A` to
  `Z`. Whitespace is exact: `\s`, `str.strip()` and `str.split()` use
  Python's full `str.isspace()` set.
- PyRepr.StrRepr: `str.isprintable()` is exact up to U+00FF. Above it,
  every character but whitespace counts as printable, so format
  characters such as U+200B or U+FEFF and unassigned code points are
  written as they are, where Python writes a `\u` escape. This reaches
  `ResumeRecord.Repr` and `str()` of a list nested in a reply.
- Json.Loads: a `\u` escape of a lone surrogate is a decode failure,
  because a Dafny string cannot hold one. Python keeps it, so on such a
  reply `Skills.ParseSkills` gives `[]` where Python returns the list.
- Skills.ParseSkills: a reply list holding floats, `NaN` or `Infinity`
  gives `[]`, where Python would keep their `str()`. The modelled
  `json.loads` decodes no floating point.
- Skills.SkillsExtractor.Extract: `json.loads` can raise errors that
  depend on the interpreter and not on the text alone. The model gives
  what the text decodes to in every case. A bracket span nested deeper
  than the recursion limit raises `RecursionError` in Python. The
  `except` clause of `_parse_skills_from_response` does not catch it, so
  `extract` returns the catalogue fallback, where the model gives `[]`.
  From Python 3.11, an integer literal of more than 4300 digits raises
  `ValueError`, which is caught and gives `[]`, where the model returns
  the cleaned list with the integer's `str()` in it.
- Coordinator.MissingMessage: Python prints the missing names in set
  iteration order, which is not fixed. The model lists them in the order
  name, email, skills.
- Coordinator.ResumeExtractor.Extract takes what each extractor returns
  as `textOf` and `listOf`, typed as text for name and email and a list
  of strings for skills. Python would accept any value, and it would also
  let an extractor change state between calls.
- The interfaces `FieldExtractor` and `FileParser` are the type
  parameters `E` and `P`. They declare nothing to prove.
- The commented-out constructor of the skills extractor is dead code.
- The package `__init__` files only re-export names.
- The example scripts and the configuration module are not part of this
  model.
