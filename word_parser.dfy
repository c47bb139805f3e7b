/** `WordParser.parse`: the text of a Word document, header paragraphs first.
    The document library is an oracle: `read` is what it gives for the
    file, the paragraph texts of each section's header and of the body, or
    the error it raised; `pathExists` is the file system's answer to
    `Path.exists`. */
module WordParser {
  import opened Wrappers
  import opened Strings
  import opened Errors
  import opened Paths

  const NotFoundPrefix: string := "Word document not found: "
  const WrongTypePrefix: string := "File is not a Word document: "
  const EmptyMessage: string := "Word document appears to be empty"
  const FailPrefix: string := "Failed to parse Word document: "

  /** The paragraph texts of a document: one sequence per section header,
      and the body. */
  datatype Document = Document(headers: seq<seq<string>>, body: seq<string>)

  /** The paragraphs that are not blank, unchanged and in order. */
  function Kept(paragraphs: seq<string>): (r: seq<string>)
    ensures |r| <= |paragraphs|
    ensures forall k :: 0 <= k < |r| ==> !IsBlank(r[k])
  {
    if paragraphs == [] then []
    else
      var p := paragraphs[|paragraphs| - 1];
      Kept(paragraphs[..|paragraphs| - 1]) + if IsBlank(p) then [] else [p]
  }

  /** The sections' header paragraphs, section after section. */
  function Flatten(sections: seq<seq<string>>): (r: seq<string>) {
    if sections == [] then []
    else Flatten(sections[..|sections| - 1]) + sections[|sections| - 1]
  }

  /** What the loops collect: the kept header paragraphs of every section,
      then the kept body paragraphs. */
  function Collected(doc: Document): seq<string> {
    Kept(Flatten(doc.headers)) + Kept(doc.body)
  }

  /** `Path(path).suffix.lower() in ['.docx', '.doc']` */
  predicate IsWordPath(path: string) {
    Lower(Suffix(path)) == ".docx" || Lower(Suffix(path)) == ".doc"
  }

  /** `parse(path)`: the existence check, then the type check, both raised
      as they are; inside the `try`, the collected paragraphs joined by new
      lines, refused when blank; any error there comes out prefixed. */
  function ParseSpec(path: string, pathExists: string -> bool, read: Result<Document, Error>): Result<string, Error> {
    if !pathExists(path) then Err(FileNotFoundError(NotFoundPrefix + path))
    else if !IsWordPath(path) then Err(ValueError(WrongTypePrefix + path))
    else
      match read
      case Err(e) => Err(Wrap(FailPrefix, e))
      case Ok(doc) =>
        var fullText := Join("\n", Collected(doc));
        if Strip(fullText) == "" then Err(Wrap(FailPrefix, ValueError(EmptyMessage)))
        else Ok(fullText)
  }

  /** The first loop of `parse`: the header paragraphs of each section,
      section by section, that are not blank. */
  method HeaderParagraphs(headers: seq<seq<string>>) returns (textContent: seq<string>)
    ensures textContent == Kept(Flatten(headers))
  {
    textContent := [];
    var s := 0;
    while s < |headers|
      invariant 0 <= s <= |headers|
      invariant textContent == Kept(Flatten(headers[..s]))
    {
      var header := headers[s];
      ghost var before := Flatten(headers[..s]);
      var j := 0;
      assert before + header[..0] == before;
      while j < |header|
        invariant 0 <= j <= |header|
        invariant textContent == Kept(before + header[..j])
      {
        KeptStep(before, header, j);
        StripEmptyIffBlank(header[j]);
        if Strip(header[j]) != "" {
          textContent := textContent + [header[j]];
        }
        j := j + 1;
      }
      FlattenStep(headers, s);
      assert header[..j] == header;
      s := s + 1;
    }
    assert headers[..s] == headers;
  }

  /** `parse(path)`, collecting paragraphs in the two loops of the source:
      over each section's header, then over the body. */
  method Parse(path: string, pathExists: string -> bool, read: Result<Document, Error>) returns (r: Result<string, Error>)
    ensures r == ParseSpec(path, pathExists, read)
  {
    if !pathExists(path) {
      return Err(FileNotFoundError(NotFoundPrefix + path));
    }
    var suffix := Lower(Suffix(path));
    if !(suffix == ".docx" || suffix == ".doc") {
      return Err(ValueError(WrongTypePrefix + path));
    }
    if read.Err? {
      return Err(Wrap(FailPrefix, read.error));
    }
    var doc := read.value;
    var textContent := HeaderParagraphs(doc.headers);
    ghost var fromHeaders := textContent;
    var i := 0;
    while i < |doc.body|
      invariant 0 <= i <= |doc.body|
      invariant textContent == fromHeaders + Kept(doc.body[..i])
    {
      var paragraph := doc.body[i];
      KeptNext(doc.body, i);
      StripEmptyIffBlank(paragraph);
      if Strip(paragraph) != "" {
        textContent := textContent + [paragraph];
      }
      i := i + 1;
    }
    assert doc.body[..i] == doc.body;
    var fullText := Join("\n", textContent);
    if Strip(fullText) == "" {
      return Err(Wrap(FailPrefix, ValueError(EmptyMessage)));
    }
    return Ok(fullText);
  }

  /** One more paragraph seen by a loop. */
  lemma KeptStep(before: seq<string>, ps: seq<string>, j: nat)
    requires j < |ps|
    ensures Kept(before + ps[..j + 1]) == Kept(before + ps[..j]) + if IsBlank(ps[j]) then [] else [ps[j]]
  {
    var x := before + ps[..j + 1];
    assert x[..|x| - 1] == before + ps[..j];
    assert x[|x| - 1] == ps[j];
  }

  lemma KeptNext(ps: seq<string>, i: nat)
    requires i < |ps|
    ensures Kept(ps[..i + 1]) == Kept(ps[..i]) + if IsBlank(ps[i]) then [] else [ps[i]]
  {
    assert ps[..i + 1][..i] == ps[..i];
  }

  /** One more section's header seen by the outer loop. */
  lemma FlattenStep(sections: seq<seq<string>>, s: nat)
    requires s < |sections|
    ensures Flatten(sections[..s + 1]) == Flatten(sections[..s]) + sections[s]
  {
    assert sections[..s + 1][..s] == sections[..s];
  }

  // ---------------------------------------------------------------------
  // Properties

  /** The paragraph filter works paragraph by paragraph. */
  lemma {:induction false} KeptConcat(a: seq<string>, b: seq<string>)
    ensures Kept(a + b) == Kept(a) + Kept(b)
    decreases |b|
  {
    if b == [] {
      assert a + b == a;
    } else {
      var n := |b| - 1;
      assert (a + b)[..|a + b| - 1] == a + b[..n];
      assert (a + b)[|a + b| - 1] == b[n];
      KeptConcat(a, b[..n]);
    }
  }

  /** A paragraph is kept exactly when it is in the input and not blank;
      it is kept as it is, not stripped. */
  lemma {:induction false} KeptMember(paragraphs: seq<string>, p: string)
    ensures p in Kept(paragraphs) <==> p in paragraphs && !IsBlank(p)
    decreases |paragraphs|
  {
    if paragraphs != [] {
      var n := |paragraphs| - 1;
      KeptMember(paragraphs[..n], p);
      assert paragraphs == paragraphs[..n] + [paragraphs[n]];
    }
  }

  /** The headers of all sections come first, then the body: the text is
      the kept paragraphs of the headers followed by the body, in order. */
  lemma CollectedOrder(doc: Document)
    ensures Collected(doc) == Kept(Flatten(doc.headers) + doc.body)
  {
    KeptConcat(Flatten(doc.headers), doc.body);
  }

  /** The checks come in order, and the first two errors are not wrapped. */
  lemma ParseChecks(path: string, pathExists: string -> bool, read: Result<Document, Error>)
    ensures !pathExists(path) ==> ParseSpec(path, pathExists, read) == Err(FileNotFoundError(NotFoundPrefix + path))
    ensures pathExists(path) && !IsWordPath(path) ==>
      ParseSpec(path, pathExists, read) == Err(ValueError(WrongTypePrefix + path))
    ensures pathExists(path) && IsWordPath(path) && read.Err? ==>
      ParseSpec(path, pathExists, read) == Err(Failure(FailPrefix + Message(read.error)))
  {
  }

  /** Every collected paragraph has a character that is not whitespace, so
      a document that is read fails exactly when it has no such paragraph
      at all, and then with the wrapped empty-document message. */
  lemma ParseEmpty(path: string, pathExists: string -> bool, doc: Document)
    requires pathExists(path) && IsWordPath(path)
    ensures ParseSpec(path, pathExists, Ok(doc)).Err? <==> Collected(doc) == []
    ensures ParseSpec(path, pathExists, Ok(doc)).Err? ==>
      ParseSpec(path, pathExists, Ok(doc)).error == Failure(FailPrefix + EmptyMessage)
  {
    var texts := Collected(doc);
    var fullText := Join("\n", texts);
    StripEmptyIffBlank(fullText);
    assert IsBlank("\n");
    JoinBlank("\n", texts);
    if texts != [] {
      assert !IsBlank(texts[0]);
    }
  }

  /** A successful parse is the collected paragraphs joined by new lines,
      and it has a character that is not whitespace. */
  lemma ParseText(path: string, pathExists: string -> bool, read: Result<Document, Error>)
    requires ParseSpec(path, pathExists, read).Ok?
    ensures read.Ok? && ParseSpec(path, pathExists, read).value == Join("\n", Collected(read.value))
    ensures !IsBlank(ParseSpec(path, pathExists, read).value)
  {
    StripEmptyIffBlank(ParseSpec(path, pathExists, read).value);
  }
}
