/**
 * `extractPDFText`: the text of a PDF's first pages, page by page, each under a header.
 *
 * The PDF library is abstracted: a document is `None` when reading or loading the file
 * throws, and otherwise the sequence of its pages, where a page is the `str` of each of its
 * text items, or `None` when fetching the page or its text throws.
 */
module PdfTextExtractor {
  import opened Wrappers
  import opened Text

  type Page = Option<seq<string>>

  const DefaultMaxPages := 15
  const ExtractError := "Failed to extract text from PDF"

  /** `Math.min(maxPages, pdf.numPages)`, and no page at all when that is not positive. */
  function PagesToRead(maxPages: int, numPages: nat): (n: nat)
    ensures n <= numPages
    ensures n <= maxPages || n == 0
    ensures n == numPages || n == maxPages || (n == 0 && maxPages < 0)
  {
    if maxPages < 0 then 0 else if maxPages < numPages then maxPages else numPages
  }

  /** The text page `i` adds: `--- Page i ---`, its items joined by spaces, and a blank line. */
  function PageText(i: nat, items: seq<string>): string
  {
    "--- Page " + NatToString(i) + " ---\n" + Join(items, " ") + "\n\n"
  }

  /** Whether each of the first `n` pages could be read. */
  predicate Readable(pages: seq<Page>, n: nat)
    requires n <= |pages|
  {
    forall k :: 0 <= k < n ==> pages[k].Some?
  }

  /** The text of the first `n` pages, in order, page 1 first. */
  function Assembled(pages: seq<Page>, n: nat): string
    requires n <= |pages| && Readable(pages, n)
  {
    if n == 0 then "" else Assembled(pages, n - 1) + PageText(n, pages[n - 1].value)
  }

  /** Called without a limit, `extractPDFText` reads the whole of a short document and at most 15 pages of a long one. */
  lemma DefaultLimit(numPages: nat)
    ensures PagesToRead(DefaultMaxPages, numPages) == if numPages <= 15 then numPages else 15
  {
  }

  /** What `extractPDFText(file, maxPages)` resolves to, or the error it rejects with. */
  function Extract(document: Option<seq<Page>>, maxPages: int): Result<string, string>
  {
    match document
    case None => Err(ExtractError)
    case Some(pages) =>
      var n := PagesToRead(maxPages, |pages|);
      if Readable(pages, n) then Ok(Assembled(pages, n)) else Err(ExtractError)
  }

  /** The loop over pages `1..pagesToRead`, appending each page's text to `fullText`. */
  method ExtractPdfText(document: Option<seq<Page>>, maxPages: int) returns (result: Result<string, string>)
    ensures result == Extract(document, maxPages)
  {
    if document.None? {
      return Err(ExtractError);
    }
    var pages := document.value;
    var fullText := "";
    var pagesToRead := PagesToRead(maxPages, |pages|);
    var i := 1;
    while i <= pagesToRead
      invariant 1 <= i <= pagesToRead + 1
      invariant Readable(pages, i - 1) && fullText == Assembled(pages, i - 1)
    {
      match pages[i - 1] {
        case None =>
          return Err(ExtractError);
        case Some(items) =>
          fullText := fullText + PageText(i, items);
      }
      i := i + 1;
    }
    return Ok(fullText);
  }

  /** The text of fewer pages is a prefix of the text of more: pages come in ascending order. */
  lemma {:induction false} EarlierPagesComeFirst(pages: seq<Page>, k: nat, n: nat)
    requires k <= n <= |pages| && Readable(pages, n)
    ensures StartsWith(Assembled(pages, n), Assembled(pages, k))
    decreases n
  {
    if k < n {
      EarlierPagesComeFirst(pages, k, n - 1);
      var a, b := Assembled(pages, n - 1), Assembled(pages, k);
      var c := Assembled(pages, n);
      assert c == a + PageText(n, pages[n - 1].value);
      assert c[..|b|] == a[..|b|];
    }
  }

  /** Each page read adds its own text at the end, headed by its number. */
  lemma LastPageEnds(pages: seq<Page>, n: nat)
    requires 0 < n <= |pages| && Readable(pages, n)
    ensures EndsWith(Assembled(pages, n), PageText(n, pages[n - 1].value))
  {
    var a := Assembled(pages, n);
    var t := PageText(n, pages[n - 1].value);
    assert a[|a| - |t|..] == t;
  }

  /** Nothing to read gives the empty text: no pages, or a limit that is not positive. */
  lemma NoPagesNoText(pages: seq<Page>, maxPages: int)
    requires pages == [] || maxPages <= 0
    ensures Extract(Some(pages), maxPages) == Ok("")
  {
  }

  /** Pages past the limit are never looked at: documents that agree on the pages read give the same result. */
  lemma PagesPastLimitIgnored(pages: seq<Page>, pages': seq<Page>, maxPages: int)
    requires PagesToRead(maxPages, |pages|) == PagesToRead(maxPages, |pages'|)
    requires pages[..PagesToRead(maxPages, |pages|)] == pages'[..PagesToRead(maxPages, |pages'|)]
    ensures Extract(Some(pages), maxPages) == Extract(Some(pages'), maxPages)
  {
    var n := PagesToRead(maxPages, |pages|);
    assert forall k :: 0 <= k < n ==> pages[k] == pages[..n][k] == pages'[k];
    if Readable(pages, n) {
      SamePrefixSameText(pages, pages', n);
    }
  }

  lemma {:induction false} SamePrefixSameText(pages: seq<Page>, pages': seq<Page>, n: nat)
    requires n <= |pages| && n <= |pages'| && Readable(pages, n)
    requires forall k :: 0 <= k < n ==> pages[k] == pages'[k]
    ensures Readable(pages', n) && Assembled(pages, n) == Assembled(pages', n)
  {
    if n > 0 {
      SamePrefixSameText(pages, pages', n - 1);
    }
  }

  /** Extraction fails exactly when the file cannot be loaded or one of the pages read cannot be. */
  lemma FailsExactly(document: Option<seq<Page>>, maxPages: int)
    ensures Extract(document, maxPages).Err? <==>
      document.None? || exists k :: 0 <= k < PagesToRead(maxPages, |document.value|) && document.value[k].None?
    ensures Extract(document, maxPages).Err? ==> Extract(document, maxPages).error == ExtractError
  {
  }
}
