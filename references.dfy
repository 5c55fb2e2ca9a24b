/**
 * The records the reference library passes between its components: a reference, the
 * update object handed to the store, a chosen file, and the metadata read from a PDF.
 *
 * JavaScript's absent values (`undefined`, `null`) and the empty string are all falsy in
 * the conditions of the source, so an absent text field is modelled as `""`, an absent list
 * as `[]` and an absent identifier as `""`.
 */
module References {
  import opened Wrappers

  /** A value of a technical-review record: the text fields are strings, `rating` is a number. */
  datatype ReviewValue = Str(text: string) | Num(n: int)

  /** A technical review: a JavaScript object, that is, a map from keys to values. */
  type Review = map<string, ReviewValue>

  /** A bibliographic reference as the library stores it. */
  datatype Reference = Reference(
    id: string,
    title: string,
    authors: seq<string>,
    editors: seq<string>,
    year: string,
    journal: string,
    abstractText: string,
    refType: string,
    volume: string,
    issue: string,
    pages: string,
    doi: string,
    publisher: string,
    isbn: string,
    issn: string,
    url: string,
    citationKey: string,
    pdfId: string,
    hasPdf: bool,
    notes: string,
    tags: seq<string>,
    favorite: bool,
    collectionIds: seq<string>,
    technicalReview: Option<Review>)

  /**
   * The update object passed to `onUpdate(id, updates)`: a partial reference, one entry per
   * key it may carry (`title`, `authors`, …, `abstract`, `type`, …, `hasPDF`, …,
   * `technicalReview`), `None` for a key the object leaves out.
   */
  datatype Patch = Patch(
    title: Option<string>,
    authors: Option<seq<string>>,
    editors: Option<seq<string>>,
    year: Option<string>,
    journal: Option<string>,
    abstractText: Option<string>,
    refType: Option<string>,
    volume: Option<string>,
    issue: Option<string>,
    pages: Option<string>,
    doi: Option<string>,
    publisher: Option<string>,
    isbn: Option<string>,
    issn: Option<string>,
    url: Option<string>,
    pdfId: Option<string>,
    hasPdf: Option<bool>,
    tags: Option<seq<string>>,
    collectionIds: Option<seq<string>>,
    technicalReview: Option<Review>)

  /** `{}`: the update object with no key. */
  const NoUpdates := Patch(None, None, None, None, None, None, None, None, None, None, None, None, None, None, None, None, None, None, None, None)

  /** A file chosen in a file input or dropped on the page. */
  datatype FileInfo = FileInfo(name: string, mimeType: string)

  const PdfMimeType := "application/pdf"

  /** What the PDF metadata reader returns; an absent field is `""` or `[]`. */
  datatype PdfMetadata = PdfMetadata(
    title: string,
    authors: seq<string>,
    year: string,
    journal: string,
    abstractText: string,
    doi: string,
    journalRanking: string)

  /** The value a patch gives a field: its own when it carries the key, else the current one. */
  function Or<T>(o: Option<T>, current: T): (r: T)
    ensures o.None? ==> r == current
    ensures o.Some? ==> r == o.value
  {
    if o.Some? then o.value else current
  }

  /**
   * The reference after the store merges an update object into it, key by key, as the
   * object spread `{ ...reference, ...updates }` does: each key present replaces its field.
   */
  function Apply(r: Reference, p: Patch): (r': Reference)
    ensures r'.id == r.id && r'.notes == r.notes && r'.favorite == r.favorite
    ensures r'.citationKey == r.citationKey
    ensures r'.title == Or(p.title, r.title)
    ensures r'.authors == Or(p.authors, r.authors)
    ensures r'.editors == Or(p.editors, r.editors)
    ensures r'.year == Or(p.year, r.year)
    ensures r'.journal == Or(p.journal, r.journal)
    ensures r'.abstractText == Or(p.abstractText, r.abstractText)
    ensures r'.refType == Or(p.refType, r.refType)
    ensures r'.volume == Or(p.volume, r.volume)
    ensures r'.issue == Or(p.issue, r.issue)
    ensures r'.pages == Or(p.pages, r.pages)
    ensures r'.doi == Or(p.doi, r.doi)
    ensures r'.publisher == Or(p.publisher, r.publisher)
    ensures r'.isbn == Or(p.isbn, r.isbn)
    ensures r'.issn == Or(p.issn, r.issn)
    ensures r'.url == Or(p.url, r.url)
    ensures r'.pdfId == Or(p.pdfId, r.pdfId)
    ensures r'.hasPdf == Or(p.hasPdf, r.hasPdf)
    ensures r'.tags == Or(p.tags, r.tags)
    ensures r'.collectionIds == Or(p.collectionIds, r.collectionIds)
    ensures p.technicalReview.Some? ==> r'.technicalReview == p.technicalReview
    ensures p.technicalReview.None? ==> r'.technicalReview == r.technicalReview
  {
    r.(title := Or(p.title, r.title),
       authors := Or(p.authors, r.authors),
       editors := Or(p.editors, r.editors),
       year := Or(p.year, r.year),
       journal := Or(p.journal, r.journal),
       abstractText := Or(p.abstractText, r.abstractText),
       refType := Or(p.refType, r.refType),
       volume := Or(p.volume, r.volume),
       issue := Or(p.issue, r.issue),
       pages := Or(p.pages, r.pages),
       doi := Or(p.doi, r.doi),
       publisher := Or(p.publisher, r.publisher),
       isbn := Or(p.isbn, r.isbn),
       issn := Or(p.issn, r.issn),
       url := Or(p.url, r.url),
       pdfId := Or(p.pdfId, r.pdfId),
       hasPdf := Or(p.hasPdf, r.hasPdf),
       tags := Or(p.tags, r.tags),
       collectionIds := Or(p.collectionIds, r.collectionIds),
       technicalReview := if p.technicalReview.Some? then p.technicalReview else r.technicalReview)
  }
}
