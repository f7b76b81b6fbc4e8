/** The document processor: per-format text extraction, the dispatch on the format tag,
    and the single-pass or map-reduce structuring of the extracted text by an LLM.
    The reader libraries, the LLM and the text splitter are parameters. */
module DocProcessor {
  import opened Wrappers
  import opened Text

  // ---------------------------------------------------------------------------
  // Formats and failures

  datatype Format = Pdf | Docx | Txt {
    /** The tag that names the format, as the caller passes it. */
    function Tag(): string {
      match this
      case Pdf => "pdf"
      case Docx => "docx"
      case Txt => "txt"
    }
  }

  /** Why extraction raised: the tag names no extractor, or the extractor's reader failed. */
  datatype Failure = UnsupportedFileType(fileType: string) | ExtractionFailed(format: Format)

  /** The branch of the dispatch a tag takes: one of the three tags, compared exactly. */
  function FormatOfTag(fileType: string): (f: Option<Format>)
    ensures f.Some? <==> fileType in {"pdf", "docx", "txt"}
    ensures f.Some? ==> f.value.Tag() == fileType
  {
    if fileType == "pdf" then Some(Pdf)
    else if fileType == "docx" then Some(Docx)
    else if fileType == "txt" then Some(Txt)
    else None
  }

  lemma TagRoundTrip(f: Format)
    ensures FormatOfTag(f.Tag()) == Some(f)
  {
  }

  // ---------------------------------------------------------------------------
  // PDF: clean every page that has text and glue the pages with spaces

  /** Python truthiness of a page's extracted text: neither `None` nor empty. */
  predicate HasText(page: Option<string>) {
    page.Some? && page.value != ""
  }

  /** A page as the PDF extractor cleans it: stripped, then every whitespace run made one
      plain space. */
  function CleanPage(pageText: string): string {
    Collapse(Strip(pageText))
  }

  /** A cleaned page is the page's words joined by single spaces, as
      `' '.join(page.split())` gives it: it has no whitespace at its ends, no whitespace
      but plain spaces and no two spaces together; it is empty exactly when the page is
      all whitespace, and it keeps every other character of the page, in order. */
  lemma CleanPageShape(pageText: string)
    ensures var r := CleanPage(pageText);
      r == Join(" ", Words(pageText)) &&
      Stripped(r) && OnlyPlainSpaces(r) && NoDoubleSpace(r) &&
      (r == [] <==> AllSpace(pageText)) &&
      NonSpace(r) == NonSpace(pageText)
  {
    var s := Strip(pageText);
    StripEmpty(pageText);
    StripKeepsText(pageText);
    CollapseOfStripped(s);
    WordsOfStrip(pageText);
  }

  /** What one page appends to the accumulated text. */
  function PageContribution(page: Option<string>): string {
    if HasText(page) then CleanPage(page.value) + " " else ""
  }

  /** The accumulated text after the given pages, before the final strip. */
  function PdfBuffer(pages: seq<Option<string>>): string
    decreases |pages|
  {
    if pages == [] then ""
    else PdfBuffer(pages[..|pages| - 1]) + PageContribution(pages[|pages| - 1])
  }

  /** The text the PDF extractor returns for the given page texts. */
  function PdfText(pages: seq<Option<string>>): (text: string)
    ensures Stripped(text) && OnlyPlainSpaces(text)
  {
    PdfBufferPlain(pages);
    StripKeepsPlain(PdfBuffer(pages));
    Strip(PdfBuffer(pages))
  }

  lemma {:induction false} PdfBufferPlain(pages: seq<Option<string>>)
    ensures OnlyPlainSpaces(PdfBuffer(pages))
    decreases |pages|
  {
    if pages != [] {
      var init, page := pages[..|pages| - 1], pages[|pages| - 1];
      PdfBufferPlain(init);
      if HasText(page) {
        CleanPageShape(page.value);
        PlainAppend(CleanPage(page.value), " ");
      }
      PlainAppend(PdfBuffer(init), PageContribution(page));
    }
  }

  /** The PDF extractor's loop over the pages; `None` when the PDF reader raised. */
  method ExtractTextFromPdf(read: Option<seq<Option<string>>>) returns (r: Result<string, Failure>)
    ensures read.None? ==> r == Failure(ExtractionFailed(Pdf))
    ensures read.Some? ==> r == Success(PdfText(read.value))
    ensures r.Success? ==> Stripped(r.value) && OnlyPlainSpaces(r.value)
  {
    if read.None? {
      return Failure(ExtractionFailed(Pdf));
    }
    var pages := read.value;
    var text := "";
    for i := 0 to |pages|
      invariant text == PdfBuffer(pages[..i])
    {
      var pageText := pages[i];
      assert pages[..i + 1] == pages[..i] + [pageText];
      if pageText.Some? && pageText.value != "" {
        var cleaned := Collapse(Strip(pageText.value));
        text := text + cleaned + " ";
      }
    }
    assert pages[..|pages|] == pages;
    return Success(Strip(text));
  }

  lemma {:induction false} PdfBufferAppend(a: seq<Option<string>>, b: seq<Option<string>>)
    ensures PdfBuffer(a + b) == PdfBuffer(a) + PdfBuffer(b)
    decreases |b|
  {
    if b == [] {
      assert a + b == a;
    } else {
      var init, last := b[..|b| - 1], b[|b| - 1];
      assert (a + b)[..|a + b| - 1] == a + init && (a + b)[|a + b| - 1] == last;
      PdfBufferAppend(a, init);
      ConcatAssoc(PdfBuffer(a), PdfBuffer(init), PageContribution(last));
    }
  }

  /** A page whose text is `None` or empty contributes nothing, wherever it stands. */
  lemma PdfSkipsBlankPages(before: seq<Option<string>>, page: Option<string>, after: seq<Option<string>>)
    requires !HasText(page)
    ensures PdfText(before + [page] + after) == PdfText(before + after)
  {
    PdfBufferSkips(before, page, after);
  }

  lemma PdfBufferSkips(before: seq<Option<string>>, page: Option<string>, after: seq<Option<string>>)
    requires !HasText(page)
    ensures PdfBuffer(before + [page] + after) == PdfBuffer(before + after)
  {
    PdfBufferAppend(before + [page], after);
    PdfBufferAppend(before, [page]);
    assert [page][..0] == [];
    assert PdfBuffer([page]) == "";
    assert PdfBuffer(before + [page]) == PdfBuffer(before);
    PdfBufferAppend(before, after);
  }

  /** Every page with text has a character that is not whitespace. */
  predicate PagesHaveWords(pages: seq<Option<string>>) {
    forall k :: 0 <= k < |pages| && HasText(pages[k]) ==> !AllSpace(pages[k].value)
  }

  /** The cleaned texts of the pages that have text, in page order. */
  function CleanedPages(pages: seq<Option<string>>): seq<string>
    decreases |pages|
  {
    if pages == [] then []
    else
      var page := pages[|pages| - 1];
      CleanedPages(pages[..|pages| - 1]) + (if HasText(page) then [CleanPage(page.value)] else [])
  }

  /** Each page with text adds its cleaned text and a space, so the accumulated text is
      the cleaned pages joined by spaces, plus one trailing space. */
  lemma {:induction false} PdfBufferIsJoin(pages: seq<Option<string>>)
    ensures var parts := CleanedPages(pages);
      PdfBuffer(pages) == if parts == [] then "" else Join(" ", parts) + " "
    decreases |pages|
  {
    if pages != [] {
      var init, page := pages[..|pages| - 1], pages[|pages| - 1];
      PdfBufferIsJoin(init);
      var parts := CleanedPages(init);
      var before := if parts == [] then "" else Join(" ", parts) + " ";
      assert PdfBuffer(pages) == before + PageContribution(page);
      if HasText(page) {
        var c := CleanPage(page.value);
        assert CleanedPages(pages) == parts + [c];
        assert PageContribution(page) == c + " ";
        JoinSpaceSnoc(parts, c);
      } else {
        assert CleanedPages(pages) == parts;
        assert PageContribution(page) == "";
        assert before + "" == before;
      }
    }
  }

  /** Appending a part and a space to a space-join with its trailing space is the
      space-join of the longer sequence with its trailing space. */
  lemma JoinSpaceSnoc(parts: seq<string>, c: string)
    ensures (if parts == [] then "" else Join(" ", parts) + " ") + (c + " ") == Join(" ", parts + [c]) + " "
  {
    var all := parts + [c];
    assert all[..|all| - 1] == parts;
    if parts == [] {
      assert Join(" ", all) == c;
    } else {
      assert Join(" ", all) == Join(" ", parts) + " " + c;
    }
  }

  /** The PDF text is the cleaned pages joined by single spaces, then stripped. */
  lemma PdfIsStrippedJoin(pages: seq<Option<string>>)
    ensures PdfText(pages) == Strip(Join(" ", CleanedPages(pages)))
  {
    PdfBufferIsJoin(pages);
    var parts := CleanedPages(pages);
    if parts != [] {
      StripIgnoresTrailingSpace(Join(" ", parts), " ");
    }
  }

  /** When every page with text has a word, every cleaned page is a run of words
      separated by single spaces. */
  lemma {:induction false} CleanedPagesShape(pages: seq<Option<string>>)
    requires PagesHaveWords(pages)
    ensures forall k :: 0 <= k < |CleanedPages(pages)| ==> IsWordRun(CleanedPages(pages)[k])
    decreases |pages|
  {
    if pages != [] {
      var init, page := pages[..|pages| - 1], pages[|pages| - 1];
      assert PagesHaveWords(init) by {
        forall k | 0 <= k < |init| && HasText(init[k]) ensures !AllSpace(init[k].value) {
          assert init[k] == pages[k];
        }
      }
      CleanedPagesShape(init);
      var parts := CleanedPages(init);
      if HasText(page) {
        assert !AllSpace(pages[|pages| - 1].value);
        CleanPageWords(page.value);
        var all := parts + [CleanPage(page.value)];
        assert CleanedPages(pages) == all;
        forall k | 0 <= k < |all| ensures IsWordRun(all[k]) {
          if k < |parts| {
            assert all[k] == parts[k];
          }
        }
      } else {
        assert CleanedPages(pages) == parts;
      }
    }
  }

  lemma CleanPageWords(pageText: string)
    requires !AllSpace(pageText)
    ensures IsWordRun(CleanPage(pageText))
  {
    CleanPageShape(pageText);
  }

  /** When every page with text has a word, the PDF text is the cleaned pages joined by
      single spaces, and no two spaces stand together. */
  lemma PdfIsJoinOfPages(pages: seq<Option<string>>)
    requires PagesHaveWords(pages)
    ensures PdfText(pages) == Join(" ", CleanedPages(pages))
    ensures NoDoubleSpace(PdfText(pages))
  {
    PdfIsStrippedJoin(pages);
    CleanedPagesShape(pages);
    JoinWithSpace(CleanedPages(pages));
    StripOfStripped(Join(" ", CleanedPages(pages)));
  }

  /** A page of whitespace only is truthy, cleans to "" and still appends a space, so the
      words around it end up two spaces apart. */
  lemma PdfBlankPageDoubleSpace()
    ensures PdfText([Some("a"), Some(" "), Some("b")]) == "a  b"
    ensures !NoDoubleSpace(PdfText([Some("a"), Some(" "), Some("b")]))
  {
    ExampleText();
    var text := "a  b";
    assert text[2] == ' ' && text[1] == ' ';
  }

  lemma ExampleText()
    ensures PdfText([Some("a"), Some(" "), Some("b")]) == "a  b"
  {
    ExampleCleanedPages();
    ExampleJoin();
    PdfIsStrippedJoin([Some("a"), Some(" "), Some("b")]);
    ExampleStrip();
  }

  lemma ExampleStrip()
    ensures Strip("a  b") == "a  b"
  {
    assert !IsSpace('a') && !IsSpace('b');
    StripOfStripped("a  b");
  }

  lemma ExampleCleanedPages()
    ensures CleanedPages([Some("a"), Some(" "), Some("b")]) == ["a", "", "b"]
  {
    ExampleCleanedTwo();
    assert !IsSpace('b');
    CleanSingleLetter('b');
    CleanedPagesSnoc([Some("a"), Some(" ")], Some("b"));
    assert [Some("a"), Some(" ")] + [Some("b")] == [Some("a"), Some(" "), Some("b")];
  }

  lemma ExampleCleanedTwo()
    ensures CleanedPages([Some("a"), Some(" ")]) == ["a", ""]
  {
    ExampleCleanedOne();
    CleanBlank();
    CleanedPagesSnoc([Some("a")], Some(" "));
    assert [Some("a")] + [Some(" ")] == [Some("a"), Some(" ")];
  }

  lemma ExampleCleanedOne()
    ensures CleanedPages([Some("a")]) == ["a"]
  {
    assert !IsSpace('a');
    CleanSingleLetter('a');
    CleanedPagesSnoc([], Some("a"));
    assert [] + [Some("a")] == [Some("a")];
  }

  lemma CleanedPagesSnoc(pages: seq<Option<string>>, page: Option<string>)
    ensures CleanedPages(pages + [page]) ==
      CleanedPages(pages) + (if HasText(page) then [CleanPage(page.value)] else [])
  {
    assert (pages + [page])[..|pages|] == pages;
  }

  lemma ExampleJoin()
    ensures Join(" ", ["a", "", "b"]) == "a  b"
  {
    var parts := ["a", "", "b"];
    assert parts[..2] == ["a", ""] && parts[..2][..1] == ["a"];
  }

  lemma CleanBlank()
    ensures CleanPage(" ") == ""
  {
    StripOfPadded("", " ");
    assert "" + " " == " ";
  }

  lemma CleanSingleLetter(c: char)
    requires !IsSpace(c)
    ensures CleanPage([c]) == [c]
  {
    StripLetter(c);
    CollapseLetter(c);
  }

  lemma StripLetter(c: char)
    requires !IsSpace(c)
    ensures Strip([c]) == [c]
  {
    StripOfPadded([c], "");
    assert [c] + "" == [c];
  }

  lemma CollapseLetter(c: char)
    requires !IsSpace(c)
    ensures Collapse([c]) == [c]
  {
    assert [c][1..] == [];
  }

  // ---------------------------------------------------------------------------
  // DOCX: every paragraph followed by a newline, then strip

  /** The accumulated text after the given paragraphs, before the final strip. */
  function DocxBuffer(paragraphs: seq<string>): string
    decreases |paragraphs|
  {
    if paragraphs == [] then ""
    else DocxBuffer(paragraphs[..|paragraphs| - 1]) + paragraphs[|paragraphs| - 1] + "\n"
  }

  /** The text the DOCX extractor returns for the given paragraph texts. */
  function DocxText(paragraphs: seq<string>): (text: string)
    ensures Stripped(text)
  {
    Strip(DocxBuffer(paragraphs))
  }

  /** The DOCX extractor's loop over the paragraphs; `None` when the DOCX reader raised. */
  method ExtractTextFromDocx(read: Option<seq<string>>) returns (r: Result<string, Failure>)
    ensures read.None? ==> r == Failure(ExtractionFailed(Docx))
    ensures read.Some? ==> r == Success(DocxText(read.value))
    ensures r.Success? ==> Stripped(r.value)
  {
    if read.None? {
      return Failure(ExtractionFailed(Docx));
    }
    var paragraphs := read.value;
    var text := "";
    for i := 0 to |paragraphs|
      invariant text == DocxBuffer(paragraphs[..i])
    {
      assert paragraphs[..i + 1][..i] == paragraphs[..i];
      text := text + paragraphs[i] + "\n";
    }
    assert paragraphs[..|paragraphs|] == paragraphs;
    return Success(Strip(text));
  }

  lemma {:induction false} DocxBufferIsJoin(paragraphs: seq<string>)
    requires paragraphs != []
    ensures DocxBuffer(paragraphs) == Join("\n", paragraphs) + "\n"
    decreases |paragraphs|
  {
    if |paragraphs| == 1 {
      assert paragraphs[..0] == [];
    } else {
      DocxBufferIsJoin(paragraphs[..|paragraphs| - 1]);
    }
  }

  /** The DOCX text is the paragraphs joined by newlines, stripped. */
  lemma DocxIsJoinedParagraphs(paragraphs: seq<string>)
    ensures DocxText(paragraphs) == Strip(Join("\n", paragraphs))
  {
    if paragraphs != [] {
      DocxBufferIsJoin(paragraphs);
      StripIgnoresTrailingSpace(Join("\n", paragraphs), "\n");
    }
  }

  /** When the first paragraph does not begin, and the last does not end, with whitespace,
      the DOCX text is exactly the paragraphs joined by newlines: every paragraph, empty
      ones included, survives in order with its inner text untouched. */
  lemma DocxKeepsParagraphs(paragraphs: seq<string>)
    requires paragraphs != []
    requires var first, last := paragraphs[0], paragraphs[|paragraphs| - 1];
      first != [] && !IsSpace(first[0]) && last != [] && !IsSpace(last[|last| - 1])
    ensures DocxText(paragraphs) == Join("\n", paragraphs)
  {
    DocxIsJoinedParagraphs(paragraphs);
    JoinEnds("\n", paragraphs);
    StripOfPadded(Join("\n", paragraphs), "");
    assert Join("\n", paragraphs) + "" == Join("\n", paragraphs);
  }

  // ---------------------------------------------------------------------------
  // TXT: the file's contents, stripped

  /** The TXT extractor; `None` when reading the file as UTF-8 raised. */
  function ExtractTextFromTxt(read: Option<string>): (r: Result<string, Failure>)
    ensures read.None? <==> r == Failure(ExtractionFailed(Txt))
    ensures read.Some? ==> r.Success? && Stripped(r.value) && TrimmedOf(read.value, r.value)
  {
    if read.None? then Failure(ExtractionFailed(Txt))
    else
      StripTrims(read.value);
      Success(Strip(read.value))
  }

  // ---------------------------------------------------------------------------
  // Dispatch on the format tag

  /** What each reader yields for the file at one path; `None` where that reader raises. */
  datatype FileReads = FileReads(
    pdfPages: Option<seq<Option<string>>>,
    docxParagraphs: Option<seq<string>>,
    utf8Text: Option<string>)

  /** Runs the extractor the tag names; any other tag fails without reading the file. */
  method ExtractTextFromFile(file: FileReads, fileType: string) returns (r: Result<string, Failure>)
    ensures FormatOfTag(fileType).None? ==> r == Failure(UnsupportedFileType(fileType))
    ensures fileType == "pdf" ==>
      r == if file.pdfPages.Some? then Success(PdfText(file.pdfPages.value)) else Failure(ExtractionFailed(Pdf))
    ensures fileType == "docx" ==>
      r == if file.docxParagraphs.Some? then Success(DocxText(file.docxParagraphs.value)) else Failure(ExtractionFailed(Docx))
    ensures fileType == "txt" ==> r == ExtractTextFromTxt(file.utf8Text)
    ensures r.Success? ==> Stripped(r.value)
  {
    if fileType == "pdf" {
      r := ExtractTextFromPdf(file.pdfPages);
    } else if fileType == "docx" {
      r := ExtractTextFromDocx(file.docxParagraphs);
    } else if fileType == "txt" {
      r := ExtractTextFromTxt(file.utf8Text);
    } else {
      r := Failure(UnsupportedFileType(fileType));
    }
  }

  // ---------------------------------------------------------------------------
  // Structuring: one LLM call for a short text, map-reduce over chunks otherwise

  /** Texts shorter than this take the single-pass branch. */
  const SinglePassLimit: nat := 6000
  /** The splitter's configuration: chunk size and overlap, in characters. */
  const ChunkSize: nat := 8000
  const ChunkOverlap: nat := 200

  /** An LLM call, by the prompt template it fills and the text put into the template. */
  datatype Prompt =
    | Whole(text: string)         // the structuring prompt, with the whole document
    | Section(chunk: string)      // the map prompt, with one chunk
    | Synthesis(sections: string) // the reduce prompt, with the combined map outputs

  /** The LLM calls made, in order, and the result; `None` when a call raised. */
  datatype Run = Run(calls: seq<Prompt>, output: Option<string>)

  /** The map prompt for every chunk, in chunk order. */
  function Sections(chunks: seq<string>): seq<Prompt> {
    seq(|chunks|, k requires 0 <= k < |chunks| => Section(chunks[k]))
  }

  /** The map step run as one batch: the outputs in chunk order, whatever order the
      calls finish in, or `None` when any call raised. */
  function Batch(llm: Prompt -> Option<string>, chunks: seq<string>): (outs: Option<seq<string>>)
    ensures outs.Some? <==> forall k :: 0 <= k < |chunks| ==> llm(Section(chunks[k])).Some?
    ensures outs.Some? ==> |outs.value| == |chunks|
    ensures outs.Some? ==> forall k :: 0 <= k < |chunks| ==> llm(Section(chunks[k])) == Some(outs.value[k])
    decreases |chunks|
  {
    if chunks == [] then Some([])
    else
      var init := chunks[..|chunks| - 1];
      match (Batch(llm, init), llm(Section(chunks[|chunks| - 1])))
      case (Some(outs), Some(last)) => Some(outs + [last])
      case _ =>
        assert forall k :: 0 <= k < |init| ==> init[k] == chunks[k];
        None
  }

  /** The structuring of one text, with the LLM and the configured splitter as parameters. */
  function StructureDocument(llm: Prompt -> Option<string>, split: (nat, nat, string) -> seq<string>,
                             text: string): (run: Run)
    ensures |text| < SinglePassLimit ==> run.calls == [Whole(text)] && run.output == llm(Whole(text))
    ensures |text| >= SinglePassLimit ==>
      var chunks := split(ChunkSize, ChunkOverlap, text);
      |run.calls| >= |chunks| && run.calls[..|chunks|] == Sections(chunks) &&
      (forall k :: 0 <= k < |run.calls| ==> !run.calls[k].Whole?) &&
      (forall k :: |chunks| <= k < |run.calls| ==> run.calls[k].Synthesis?)
  {
    if |text| < SinglePassLimit then
      Run([Whole(text)], llm(Whole(text)))
    else
      var chunks := split(ChunkSize, ChunkOverlap, text);
      var mapCalls := Sections(chunks);
      match Batch(llm, chunks)
      case None => Run(mapCalls, None)
      case Some(outs) =>
        var reduce := Synthesis(Join("\n\n", outs));
        assert (mapCalls + [reduce])[..|chunks|] == mapCalls;
        Run(mapCalls + [reduce], llm(reduce))
  }

  /** A long text whose map calls all succeed: one map call per chunk in chunk order, then
      exactly one reduce call, on the map outputs joined by blank lines in chunk order,
      whose output is the result. */
  lemma LongDocumentMapReduce(llm: Prompt -> Option<string>, split: (nat, nat, string) -> seq<string>,
                              text: string, outs: seq<string>)
    requires |text| >= SinglePassLimit
    requires var chunks := split(ChunkSize, ChunkOverlap, text);
      |outs| == |chunks| && forall k :: 0 <= k < |chunks| ==> llm(Section(chunks[k])) == Some(outs[k])
    ensures var chunks := split(ChunkSize, ChunkOverlap, text);
      var run := StructureDocument(llm, split, text);
      var reduce := Synthesis(Join("\n\n", outs));
      run.calls == Sections(chunks) + [reduce] && run.output == llm(reduce) &&
      forall k :: 0 <= k < |run.calls| ==> (run.calls[k].Synthesis? <==> k == |chunks|)
  {
    BatchOfOutputs(llm, split(ChunkSize, ChunkOverlap, text), outs);
  }

  /** The batch returns exactly the outputs of the map calls, in chunk order, when every
      call succeeds. */
  lemma BatchOfOutputs(llm: Prompt -> Option<string>, chunks: seq<string>, outs: seq<string>)
    requires |outs| == |chunks| && forall k :: 0 <= k < |chunks| ==> llm(Section(chunks[k])) == Some(outs[k])
    ensures Batch(llm, chunks) == Some(outs)
  {
    var b := Batch(llm, chunks);
    assert b.Some?;
    assert b.value == outs;
  }

  /** A long text one of whose map calls raises: no reduce call is made and no result is
      returned. */
  lemma FailedSectionFailsDocument(llm: Prompt -> Option<string>, split: (nat, nat, string) -> seq<string>,
                                   text: string, k: nat)
    requires |text| >= SinglePassLimit
    requires var chunks := split(ChunkSize, ChunkOverlap, text);
      k < |chunks| && llm(Section(chunks[k])).None?
    ensures var run := StructureDocument(llm, split, text);
      run.output.None? && forall j :: 0 <= j < |run.calls| ==> !run.calls[j].Synthesis?
  {
  }
}
