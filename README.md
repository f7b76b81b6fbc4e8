# Document Structuring Agent: a Dafny model of the document processor

The Document Structuring Agent takes an uploaded PDF, DOCX or TXT file and extracts its text. An LLM then rewrites that text as a structured Markdown document. This project models the deterministic parts of that pipeline and proves properties of them:

- **File-type detection** (`App`): a file name's lower-cased extension decides the format tag `pdf`, `docx` or `txt`. Any other name raises "Unsupported file type".
- **Format dispatch** (`DocProcessor.ExtractTextFromFile`): the tag routes to one of three extractors. Any other tag fails before a file is read.
- **Per-format text normalisation** (`DocProcessor`):
  - PDF: every page with text is stripped, each whitespace run becomes one space, and the page is appended followed by a space. The whole result is then stripped.
  - DOCX: every paragraph is appended followed by a newline, and the result is stripped.
  - TXT: the file contents are stripped.
- **The structuring skeleton** (`DocProcessor.StructureDocument`):
  - A text shorter than 6000 characters makes one LLM call.
  - A longer text is split into chunks, and each chunk gets one "map" call.
  - The map outputs are joined with blank lines and sent in one "reduce" call.

Module layout:

- `wrappers.dfy` (`Wrappers`): `Option` and `Result`.
- `text.dfy` (`Text`): Python's `str.strip`, the regular-expression substitution of `\s+` by one space, and `str.join`, together with their properties.
- `doc_processor.dfy` (`DocProcessor`): the `DocumentProcessor` class of `doc_processor.py`.
- `app.dfy` (`App`): `get_file_type` of `app.py`.

The external pieces become parameters:

- **Readers.** pdfplumber, python-docx and `open` are represented by what they yield: the page texts (`Option<string>` each, since `extract_text` may return `None`), the paragraph texts, or the file's contents. `None` stands for "the reader raised", which the source turns into an extraction exception.
- **LLM.** The LLM is a function from a prompt to `Option<string>`, where `None` means the call raised. `StructureDocument` returns a `Run`: the trace of calls in order, plus the result.
- **Splitter.** The text splitter is a function of (chunk size, overlap, text), applied to the configured 8000 and 200.

Whitespace follows Python's `str.isspace`, which `str.strip` and `\s` both use. It is the full set: the ASCII controls 0x09-0x0D and 0x1C-0x1F, the space, U+0085, U+00A0, U+1680, U+2000-U+200A, U+2028, U+2029, U+202F, U+205F and U+3000.

Two behaviours of the code differ from what its documentation suggests, and the model follows the code:

- A PDF page made only of whitespace is still truthy, so it contributes a lone space. The pages around it then end up separated by two spaces (`PdfBlankPageDoubleSpace`). The single-space join holds only when every page with text has a non-whitespace character (`PdfIsJoinOfPages`).
- An empty LLM answer is returned as it is. It is not treated as an error.

## Model

| member | source | states |
|---|---|---|
| Text.Strip | doc_processor.py:54 | Python `str.strip`: the result has no whitespace at either end and is no longer than the input |
| Text.TrimStartSpec | doc_processor.py:54 | the leading-trim removes exactly the leading whitespace run: what it removes is whitespace and what remains starts with a non-whitespace character or is empty |
| Text.TrimEndSpec | doc_processor.py:54 | the trailing-trim removes exactly the trailing whitespace run, symmetrically |
| Text.StripTrims | doc_processor.py:74 | the stripped text is the input with an all-whitespace prefix and an all-whitespace suffix removed, and nothing else changed |
| Text.StripUnique | doc_processor.py:74 | any text without outer whitespace that is the input with whitespace trimmed from both ends is the result of strip |
| Text.StripIdempotent | doc_processor.py:54 | stripping twice is stripping once |
| Text.StripEmpty | doc_processor.py:54 | strip returns the empty text exactly when the input is all whitespace |
| Text.StripKeepsText | doc_processor.py:54 | strip removes no non-whitespace character and reorders none |
| Text.StripIgnoresTrailingSpace | doc_processor.py:54 | whitespace appended to a text does not change its strip |
| Text.Collapse | doc_processor.py:50 | `re.sub(r'\s+', ' ', s)` on a stripped text is `' '.join(s.split())`: each whitespace run becomes one space where it stood (proved by `Text.CollapseIsJoinedWords`) |
| Text.CollapseIsJoinedWords | doc_processor.py:50 | on a stripped text, collapsing the whitespace gives exactly the text's words joined by single spaces, so words are neither glued together nor reordered |
| Text.WordsAreWords | doc_processor.py:50 | every part of the `split()` reference is a non-empty run without whitespace |
| Text.WordsOfStrip | doc_processor.py:50 | stripping a text does not change its words |
| Text.CollapseEnds | doc_processor.py:50 | collapsing whitespace runs keeps the first and last character when they are not whitespace, and gives the empty text only for the empty text |
| Text.CollapseShape | doc_processor.py:50 | after collapsing, the only whitespace is a plain space and no two spaces are adjacent |
| Text.CollapseKeepsText | doc_processor.py:50 | collapsing keeps every non-whitespace character, in order |
| Text.CollapseOfStripped | doc_processor.py:50 | collapsing a stripped text gives its words joined by single spaces; it stays stripped, is empty only if the text was, has single plain spaces as its only whitespace and keeps its other characters in order |
| Text.Join | doc_processor.py:135 | Python `sep.join(parts)`: one part gives that part, and a part in front of a non-empty sequence gives that part, the separator and the join of the rest (`Text.JoinCons`); its ends are the outer parts' ends (`Text.JoinEnds`) |
| Text.JoinCons | doc_processor.py:135 | joining a part followed by a non-empty sequence is the part, the separator, then the join of the sequence |
| Text.JoinWithSpace | doc_processor.py:50-54 | joining runs of words with single spaces gives a run of words: no outer whitespace, only plain spaces, never two in a row |
| Text.JoinEnds | doc_processor.py:63-64 | a join begins with the first part's first character and ends with the last part's last character |
| DocProcessor.FormatOfTag | doc_processor.py:30-37 | a tag selects an extractor exactly when it is `pdf`, `docx` or `txt`, and the selected format's tag is the tag given |
| DocProcessor.CleanPage | doc_processor.py:50 | one page's cleaning, `re.sub(r'\s+', ' ', page.strip())`, is `' '.join(page.split())` (proved by `DocProcessor.CleanPageShape`) |
| DocProcessor.CleanPageShape | doc_processor.py:50 | a cleaned page is the page's words joined by single spaces; it has no outer whitespace, only plain spaces, no double space; it is empty exactly when the page is all whitespace, and it keeps the page's other characters in order |
| DocProcessor.PdfText | doc_processor.py:42-54 | the PDF text has no outer whitespace and no whitespace but plain spaces: newlines and tabs never survive |
| DocProcessor.ExtractTextFromPdf | doc_processor.py:39-54 | the page loop returns `PdfText` of the pages, or the PDF extraction failure when the reader raised |
| DocProcessor.PdfSkipsBlankPages | doc_processor.py:47-48 | a page whose text is `None` or empty does not change the PDF text, wherever it stands |
| DocProcessor.PdfBufferAppend | doc_processor.py:45-51 | the text accumulated over two runs of pages is the concatenation of the two accumulations |
| DocProcessor.PdfIsStrippedJoin | doc_processor.py:45-54 | the PDF text is the strip of the cleaned pages with text, joined by single spaces in page order |
| DocProcessor.PdfIsJoinOfPages | doc_processor.py:48-54 | when every page with text has a non-whitespace character, the PDF text is exactly the cleaned pages joined by single spaces and has no double space |
| DocProcessor.PdfBlankPageDoubleSpace | doc_processor.py:48-51 | a whitespace-only page between two pages leaves two spaces between them (`a`, ` `, `b` gives `a  b`) |
| DocProcessor.DocxText | doc_processor.py:61-64 | the DOCX text has no outer whitespace |
| DocProcessor.ExtractTextFromDocx | doc_processor.py:56-66 | the paragraph loop returns `DocxText` of the paragraphs, or the DOCX extraction failure when the reader raised |
| DocProcessor.DocxIsJoinedParagraphs | doc_processor.py:61-64 | the DOCX text is the strip of the paragraphs joined by newlines, in order |
| DocProcessor.DocxKeepsParagraphs | doc_processor.py:61-64 | when the first paragraph does not start, and the last does not end, with whitespace, the DOCX text is exactly the paragraphs joined by newlines, so empty and inner paragraphs survive |
| DocProcessor.ExtractTextFromTxt | doc_processor.py:68-76 | the TXT text is the contents with outer whitespace trimmed and nothing else changed; a failed read is the TXT extraction failure and nothing else is |
| DocProcessor.ExtractTextFromFile | doc_processor.py:28-37 | `pdf`, `docx` and `txt` give their extractor's outcome; any other tag fails as unsupported whatever the file holds; every success has no outer whitespace |
| DocProcessor.Batch | doc_processor.py:134 | the batch yields outputs exactly when every map call succeeds, one per chunk and in chunk order |
| DocProcessor.BatchOfOutputs | doc_processor.py:134 | when every map call succeeds, the batch returns exactly those outputs, in chunk order |
| DocProcessor.StructureDocument | doc_processor.py:104-138 | a text shorter than 6000 makes one call on the whole text and returns its answer unchanged; a longer one (6000 included) starts with one map call per chunk in order, makes no whole-text call, and has only reduce calls after the map calls |
| DocProcessor.LongDocumentMapReduce | doc_processor.py:114-138 | when all map calls succeed, the calls are the map calls then exactly one reduce call on the map outputs joined by blank lines in chunk order, and its answer is the result |
| DocProcessor.FailedSectionFailsDocument | doc_processor.py:134 | when any map call raises, no reduce call is made and no result is returned |
| App.Lower | app.py:29-33 | `s.lower()` on ASCII letters: keeps the length, lower-cases every `A`-`Z`, leaves every other character alone (proved by `App.LowerSpec`) |
| App.LowerSpec | app.py:29-33 | lower-casing keeps the length, changes every `A`-`Z` to its lower-case letter, leaves every other character alone, and leaves no upper-case letter |
| App.EndsWith | app.py:29-33 | `s.endswith(suffix)` holds exactly when `s` is some text followed by `suffix` (proved by `App.EndsWithConcat`) |
| App.EndsWithConcat | app.py:29-33 | a text ends with a suffix exactly when it is some text followed by that suffix |
| App.GetFileType | app.py:27-36 | the tag is `pdf`, `docx` or `txt` exactly when the lower-cased name ends with `.pdf`, `.docx` or `.txt` respectively, and there is none (the error) exactly when it ends with none of them |
| App.SuffixesExclusive | app.py:29-34 | no name ends with two of the three extensions, so the order of the tests is immaterial |
| App.FinalExtensionDecides | app.py:29-34 | whatever comes before it, a final extension `.pdf`, `.docx` or `.txt` in any case decides the tag |
| App.UpperCaseExample | app.py:29-30 | `A.PDF` gets `pdf` |
| App.MixedCaseExample | app.py:31-32 | `Report.DocX` gets `docx` |
| App.DoubleExtensionExample | app.py:33-34 | `x.pdf.txt` gets `txt` |
| App.NotATag | app.py:35-36 | a name whose last five characters hold no upper-case letter and form none of the extensions gets no tag |
| App.NoTagExample | app.py:35-36 | `notes.md` and `mypdf` get no tag |
| App.DetectedTypeIsSupported | app.py:29-34 | every tag detected from a name is one the dispatch accepts, and it is the name's extension |

## Left out

- Reading files: the pdfplumber, python-docx and UTF-8 file readers are parameters. Only their outcome is modelled: what they yield, or that they raised.
- The log lines printed by each extractor are not modelled. The exception messages are reduced to which extractor failed.
- `open` in text mode translates `\r\n` and `\r` to `\n`. This happens inside the reader, so the TXT model receives the already-translated contents.
- The LLM client (model name, temperature, API key) and the wording of the three prompt templates are left out. Each call is recorded by which template it fills and the text put into it.
- The text splitter is a library whose code is not part of this model. It is a parameter, so nothing is proved about chunk sizes, overlap or how the chunks cover the text.
- DocProcessor.Batch: the library may run the map calls concurrently. The model assumes that every call is made and that the outputs come back in chunk order. The trace lists the map calls in chunk order, not in the order they were issued.
- DocProcessor.StructureDocument: when a map call raises, the trace still lists every map call. Whether the library cancels the calls still pending is not modelled.
- App.Lower: only `A`-`Z` are lower-cased, whereas Python's `str.lower` also folds non-ASCII letters. Some non-ASCII characters lower-case to ASCII letters, for example U+212A KELVIN SIGN gives `k` and U+0130 gives `i` plus a combining dot. None of these produce `.`, `p`, `d`, `f`, `o`, `c`, `x` or `t`, so the suffix tests come out the same.
- The Streamlit interface of `app.py`: uploads, temporary files, the API-key lookup, the rendering of results and the converters it calls.
- Duplicate detection and cleaning: nothing in the code implements it.
