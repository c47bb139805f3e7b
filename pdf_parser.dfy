/** `PDFParser.parse`: the text of a PDF file, page by page. The PDF
    library is an oracle: `read` is what it gives for the file, the text of
    each page in page order (`None` for a page without text) or the error it
    raised; `pathExists` is the file system's answer to `Path.exists`. */
module PdfParser {
  import opened Wrappers
  import opened Strings
  import opened Errors
  import opened Paths

  const NotFoundPrefix: string := "PDF file not found: "
  const WrongTypePrefix: string := "File is not a PDF: "
  const EmptyMessage: string := "PDF appears to be empty or contains no extractable text"
  const FailPrefix: string := "Failed to parse PDF file: "

  /** `if page_text`: the page has text and it is not empty. A page of
      spaces only is kept. */
  predicate HasText(page: Option<string>) {
    page.Some? && page.value != ""
  }

  /** The texts of the pages that have text, in page order. */
  function PageTexts(pages: seq<Option<string>>): (r: seq<string>)
    ensures |r| <= |pages|
    ensures forall k :: 0 <= k < |r| ==> r[k] != ""
  {
    if pages == [] then []
    else
      var page := pages[|pages| - 1];
      PageTexts(pages[..|pages| - 1]) + if HasText(page) then [page.value] else []
  }

  /** `Path(path).suffix.lower() == '.pdf'` */
  predicate IsPdfPath(path: string) {
    Lower(Suffix(path)) == ".pdf"
  }

  /** `parse(path)`: the existence check, then the type check, both raised
      as they are; inside the `try`, the page texts joined by new lines,
      refused when blank; any error there comes out prefixed. */
  function ParseSpec(path: string, pathExists: string -> bool,
                     read: Result<seq<Option<string>>, Error>): Result<string, Error>
  {
    if !pathExists(path) then Err(FileNotFoundError(NotFoundPrefix + path))
    else if !IsPdfPath(path) then Err(ValueError(WrongTypePrefix + path))
    else
      match read
      case Err(e) => Err(Wrap(FailPrefix, e))
      case Ok(pages) =>
        var fullText := Join("\n", PageTexts(pages));
        if Strip(fullText) == "" then Err(Wrap(FailPrefix, ValueError(EmptyMessage)))
        else Ok(fullText)
  }

  /** `parse(path)`, collecting the page texts in a loop. */
  method Parse(path: string, pathExists: string -> bool,
               read: Result<seq<Option<string>>, Error>) returns (r: Result<string, Error>)
    ensures r == ParseSpec(path, pathExists, read)
  {
    if !pathExists(path) {
      return Err(FileNotFoundError(NotFoundPrefix + path));
    }
    if Lower(Suffix(path)) != ".pdf" {
      return Err(ValueError(WrongTypePrefix + path));
    }
    if read.Err? {
      return Err(Wrap(FailPrefix, read.error));
    }
    var pages := read.value;
    var textContent: seq<string> := [];
    var i := 0;
    while i < |pages|
      invariant 0 <= i <= |pages|
      invariant textContent == PageTexts(pages[..i])
    {
      var pageText := pages[i];
      assert pages[..i + 1][..i] == pages[..i];
      if pageText.Some? && pageText.value != "" {
        textContent := textContent + [pageText.value];
      }
      i := i + 1;
    }
    assert pages[..i] == pages;
    var fullText := Join("\n", textContent);
    if Strip(fullText) == "" {
      return Err(Wrap(FailPrefix, ValueError(EmptyMessage)));
    }
    return Ok(fullText);
  }

  // ---------------------------------------------------------------------
  // Properties

  /** The page filter works page by page. */
  lemma {:induction false} PageTextsConcat(a: seq<Option<string>>, b: seq<Option<string>>)
    ensures PageTexts(a + b) == PageTexts(a) + PageTexts(b)
    decreases |b|
  {
    if b == [] {
      assert a + b == a;
    } else {
      var n := |b| - 1;
      assert (a + b)[..|a + b| - 1] == a + b[..n];
      assert (a + b)[|a + b| - 1] == b[n];
      PageTextsConcat(a, b[..n]);
    }
  }

  /** A text is collected exactly when some page has it as its non-empty
      text. */
  lemma {:induction false} PageTextsMember(pages: seq<Option<string>>, s: string)
    ensures s in PageTexts(pages) <==> s != "" && Some(s) in pages
    decreases |pages|
  {
    if pages != [] {
      var n := |pages| - 1;
      PageTextsMember(pages[..n], s);
      assert pages == pages[..n] + [pages[n]];
    }
  }

  /** The checks come in order, and the first two errors are not wrapped:
      a missing file is reported whatever its name, a file of another type
      before the document is read. */
  lemma ParseChecks(path: string, pathExists: string -> bool, read: Result<seq<Option<string>>, Error>)
    ensures !pathExists(path) ==> ParseSpec(path, pathExists, read) == Err(FileNotFoundError(NotFoundPrefix + path))
    ensures pathExists(path) && !IsPdfPath(path) ==>
      ParseSpec(path, pathExists, read) == Err(ValueError(WrongTypePrefix + path))
    ensures pathExists(path) && IsPdfPath(path) && read.Err? ==>
      ParseSpec(path, pathExists, read) == Err(Failure(FailPrefix + Message(read.error)))
  {
  }

  /** A document that is read fails exactly when every page with text has
      only whitespace, and then with the wrapped empty-document message. */
  lemma ParseEmpty(path: string, pathExists: string -> bool, pages: seq<Option<string>>)
    requires pathExists(path) && IsPdfPath(path)
    ensures ParseSpec(path, pathExists, Ok(pages)).Err? <==> AllBlank(PageTexts(pages))
    ensures var r := ParseSpec(path, pathExists, Ok(pages));
      r.Err? ==> r.error == Failure(FailPrefix + EmptyMessage)
  {
    var texts := PageTexts(pages);
    var fullText := Join("\n", texts);
    assert ParseSpec(path, pathExists, Ok(pages)) ==
      if Strip(fullText) == "" then Err(Wrap(FailPrefix, ValueError(EmptyMessage))) else Ok(fullText);
    StripEmptyIffBlank(fullText);
    assert IsBlank("\n");
    JoinBlank("\n", texts);
  }

  /** A successful parse is the page texts joined by new lines, and it has
      a character that is not whitespace. */
  lemma ParseText(path: string, pathExists: string -> bool, read: Result<seq<Option<string>>, Error>)
    requires ParseSpec(path, pathExists, read).Ok?
    ensures read.Ok? && ParseSpec(path, pathExists, read).value == Join("\n", PageTexts(read.value))
    ensures !IsBlank(ParseSpec(path, pathExists, read).value)
  {
    StripEmptyIffBlank(ParseSpec(path, pathExists, read).value);
  }

  /** The extension is compared without regard to case: a file name with
      a stem is a PDF path when its extension lower-cases to `.pdf`. */
  lemma PdfAnyCase(dir: string, stem: string, ext: string)
    requires dir == "" || dir[|dir| - 1] == '/'
    requires stem != "" && '/' !in stem
    requires |ext| == 4 && Lower(ext) == ".pdf"
    ensures IsPdfPath(dir + stem + ext)
  {
    assert ext[0] == '.' && '.' !in ext[1..] && '/' !in ext by {
      assert forall k :: 0 <= k < 4 ==> Lower(ext)[k] == LowerChar(ext[k]);
    }
    SuffixOf(dir, stem, ext, "");
    assert dir + stem + ext + "" == dir + stem + ext;
  }

  lemma UpperCasePdf()
    ensures IsPdfPath("resume.PDF")
  {
    assert Lower(".PDF") == ".pdf";
    PdfAnyCase("", "resume", ".PDF");
    assert "" + "resume" + ".PDF" == "resume.PDF";
  }

  /** A name that is only an extension has no suffix. */
  lemma HiddenPdf()
    ensures Suffix(".pdf") == "" && !IsPdfPath(".pdf")
  {
    NameOfPath("", ".pdf", "");
    assert "" + ".pdf" + "" == ".pdf";
    assert LastIndex(".pdf", '.') == Some(0);
  }
}
