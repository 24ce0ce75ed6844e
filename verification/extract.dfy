/** `read_pdf`: one record per page of a PDF, with the page text sanitised
    and counted, or no records at all when anything fails. The PDF library
    is replaced by its observable outcome: the file either cannot be opened
    and parsed, or yields, page by page, an extracted text, no text, or an
    exception. */
module Extract {
  import opened Wrappers
  import opened Text
  import opened Words

  /** The three failures `read_pdf` tells apart in its messages. */
  datatype ReadError = FileNotFound | PdfReadError | UnexpectedError

  /** What extracting one page does: return a text, return `None`, or raise. */
  datatype PageSource = Extracted(text: Option<string>) | Raises(error: ReadError)

  /** The file as the PDF library sees it. */
  datatype PdfFile = Unreadable(error: ReadError) | Opened(pages: seq<PageSource>)

  /** The dictionary built for one page. */
  datatype PageRecord = PageRecord(pageNumber: int, text: string, numCharacters: int, numWords: int)

  /** `rec` is the record of the page at 0-based position `i` whose
      extraction returned `raw`: numbered from 1, missing text read as
      empty, NUL replaced, and both counts taken over the sanitised text. */
  ghost predicate Describes(rec: PageRecord, i: nat, raw: Option<string>) {
    && rec.pageNumber == i + 1
    && SanitizedOf(rec.text, raw.GetOr(""))
    && rec.numCharacters == |rec.text|
    && rec.numWords == WordCount(rec.text)
  }

  /** Every page of `pages` extracts without raising. */
  predicate AllExtracted(pages: seq<PageSource>) {
    forall k :: 0 <= k < |pages| ==> pages[k].Extracted?
  }

  /** The record built in the loop body for page `i`. */
  function RecordOf(i: nat, raw: Option<string>): (rec: PageRecord)
    ensures Describes(rec, i, raw)
    ensures raw.None? ==> rec.text == "" && rec.numCharacters == 0 && rec.numWords == 0
    ensures rec.numWords == WordCount(raw.GetOr(""))
  {
    var text := Sanitize(raw.GetOr(""));
    SplitCountsWords(text);
    SanitizeKeepsWordCount(raw.GetOr(""));
    PageRecord(i + 1, text, |text|, |Split(text)|)
  }

  /** The body of the `try` block: the records of all pages, or the error of
      the first step that raised. */
  method ReadPages(file: PdfFile) returns (r: Result<seq<PageRecord>, ReadError>)
    ensures r.Success? <==> file.Opened? && AllExtracted(file.pages)
    ensures r.Success? ==> |r.value| == |file.pages|
    ensures r.Success? ==> forall i :: 0 <= i < |r.value| ==> Describes(r.value[i], i, file.pages[i].text)
    ensures file.Unreadable? ==> r == Failure(file.error)
    ensures file.Opened? && r.Failure? ==>
      exists k :: 0 <= k < |file.pages| && file.pages[k] == Raises(r.error) && AllExtracted(file.pages[..k])
  {
    if file.Unreadable? {
      return Failure(file.error);
    }
    var pages := file.pages;
    var records: seq<PageRecord> := [];
    var i := 0;
    while i < |pages|
      invariant 0 <= i <= |pages|
      invariant AllExtracted(pages[..i])
      invariant |records| == i
      invariant forall j :: 0 <= j < i ==> Describes(records[j], j, pages[j].text)
    {
      match pages[i]
      case Raises(e) =>
        return Failure(e);
      case Extracted(raw) =>
        records := records + [RecordOf(i, raw)];
        assert pages[..i + 1] == pages[..i] + [pages[i]];
        i := i + 1;
    }
    assert pages[..i] == pages;
    return Success(records);
  }

  /** `read_pdf`: every page's record, or the empty list if opening,
      parsing or any page raised. */
  method ReadPdf(file: PdfFile) returns (records: seq<PageRecord>)
    ensures file.Unreadable? ==> records == []
    ensures file.Opened? && !AllExtracted(file.pages) ==> records == []
    ensures file.Opened? && AllExtracted(file.pages) ==>
      && |records| == |file.pages|
      && forall i :: 0 <= i < |records| ==> Describes(records[i], i, file.pages[i].text)
  {
    var r := ReadPages(file);
    records := r.GetOr([]);
  }
}
