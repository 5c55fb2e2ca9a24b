/**
 * The reference list: what each card shows (the PDF and review badges, the abstract
 * preview), the bulk-selection toolbar, and what a click on a card does.
 */
module ReferenceList {
  import opened Wrappers
  import opened Text
  import opened References
  import TechnicalSheet

  const PreviewLength := 150

  /** `allSelected`: a non-empty list with as many selected ids as references. */
  predicate AllSelected(refs: seq<Reference>, selectedIds: seq<string>)
  {
    |refs| > 0 && |selectedIds| == |refs|
  }

  /** Selecting every reference, each once, checks the box. */
  lemma EverySelectedChecks(refs: seq<Reference>, selectedIds: seq<string>)
    requires refs != []
    requires |selectedIds| == |refs| && forall i :: 0 <= i < |refs| ==> selectedIds[i] == refs[i].id
    ensures AllSelected(refs, selectedIds)
  {
  }

  /**
   * The check compares lengths only: two ids selected from a list of two references check
   * the box even when both are the same id and the other reference is not selected.
   */
  lemma AllSelectedIsLengthOnly(a: Reference, b: Reference)
    requires a.id != b.id
    ensures AllSelected([a, b], [a.id, a.id]) && b.id !in [a.id, a.id]
  {
  }

  /** What the select-all checkbox does when changed. */
  datatype BulkAction = ExitSelection | SelectAll

  /** A checked box exits selection mode; an unchecked one selects all. */
  function SelectAllChanged(refs: seq<Reference>, selectedIds: seq<string>): (a: BulkAction)
    ensures a == ExitSelection <==> AllSelected(refs, selectedIds)
  {
    if AllSelected(refs, selectedIds) then ExitSelection else SelectAll
  }

  /** The PDF badge: `reference.hasPDF || reference.pdfId`. */
  predicate PdfBadge(r: Reference)
  {
    r.hasPdf || r.pdfId != ""
  }

  /**
   * Whether a review value counts as written: truthy, with text left after `toString().trim()`.
   * For text that is non-blank text; for a number it is a non-zero number, whose decimal form
   * is never blank (see `NumberTextNeverBlank`).
   */
  predicate Written(v: ReviewValue)
  {
    match v
    case Str(t) => !Blank(t)
    case Num(n) => n != 0
  }

  /** A number's decimal form starts with a digit or `-`, so trimming never empties it. */
  lemma NumberTextNeverBlank(n: int)
    ensures !Blank(IntToString(n))
  {
    var s := IntToString(n);
    if n < 0 {
      assert s[0] == '-';
    } else {
      assert IsDigit(NatToString(n)[0]);
    }
  }

  /** The review badge: a review exists and some key other than `rating` holds a written value. */
  predicate ReviewBadge(review: Option<Review>)
  {
    review.Some? && exists k :: k in review.value && k != TechnicalSheet.RatingField && Written(review.value[k])
  }

  /** A sheet opened and saved without writing anything shows no badge, whatever the rating. */
  lemma UntouchedReviewHasNoBadge(star: int)
    ensures !ReviewBadge(Some(TechnicalSheet.InitialReview(None)))
    ensures !ReviewBadge(Some(TechnicalSheet.ClickStar(TechnicalSheet.InitialReview(None), star)))
  {
    var d := TechnicalSheet.InitialReview(None);
    assert forall k :: k in d && k != TechnicalSheet.RatingField ==> k in TechnicalSheet.TextFields;
    var c := TechnicalSheet.ClickStar(d, star);
    assert forall k :: k in c && k != TechnicalSheet.RatingField ==> c[k] == d[k];
  }

  /** Writing non-blank text into any field other than the rating shows the badge. */
  lemma WrittenFieldShowsBadge(review: Review, field: string, text: string)
    requires field != TechnicalSheet.RatingField && !Blank(text)
    ensures ReviewBadge(Some(TechnicalSheet.FieldChange(review, field, Str(text))))
  {
    var r := TechnicalSheet.FieldChange(review, field, Str(text));
    assert field in r && Written(r[field]);
  }

  /**
   * The abstract paragraph: absent for an empty abstract, else the first 150 characters and
   * `...` when it is longer, else the whole abstract.
   */
  function AbstractPreview(abstractText: string): (p: Option<string>)
    ensures p.None? <==> abstractText == ""
  {
    if abstractText == "" then None
    else if |abstractText| > PreviewLength then Some(abstractText[..PreviewLength] + "...")
    else Some(abstractText)
  }

  /** The preview is the abstract when short, else its first 150 characters followed by `...`. */
  lemma PreviewIsPrefix(abstractText: string)
    requires abstractText != ""
    ensures var p := AbstractPreview(abstractText).value;
      |p| <= PreviewLength + 3 &&
      (|abstractText| <= PreviewLength ==> p == abstractText) &&
      (|abstractText| > PreviewLength ==>
        |p| == PreviewLength + 3 && p[..PreviewLength] == abstractText[..PreviewLength] && p[PreviewLength..] == "...")
  {
  }

  /** A click on a card selects its reference outside selection mode, and does nothing in it. */
  function CardClick(isSelectionMode: bool, r: Reference): (selected: Option<Reference>)
    ensures selected.Some? <==> !isSelectionMode
    ensures selected.Some? ==> selected.value == r
  {
    if isSelectionMode then None else Some(r)
  }

  /** What one card shows that the model covers. */
  datatype Card = Card(
    id: string,
    highlighted: bool,
    checkbox: Option<bool>,   // shown in selection mode: whether the card is selected
    pdfBadge: bool,
    reviewBadge: bool,
    abstractPreview: Option<string>)

  /** The bulk-actions toolbar, shown in selection mode. */
  datatype Toolbar = Toolbar(checked: bool, deleteCount: Option<nat>)

  datatype View =
    | EmptyState
    | Listing(toolbar: Option<Toolbar>, cards: seq<Card>)

  function CardOf(r: Reference, selected: Option<Reference>, isSelectionMode: bool, selectedIds: seq<string>): Card
  {
    Card(r.id,
      selected.Some? && selected.value.id == r.id,
      if isSelectionMode then Some(r.id in selectedIds) else None,
      PdfBadge(r),
      ReviewBadge(r.technicalReview),
      AbstractPreview(r.abstractText))
  }

  function Cards(refs: seq<Reference>, selected: Option<Reference>, isSelectionMode: bool,
                 selectedIds: seq<string>): (cs: seq<Card>)
    ensures |cs| == |refs|
    ensures forall i :: 0 <= i < |refs| ==> cs[i] == CardOf(refs[i], selected, isSelectionMode, selectedIds)
  {
    if refs == [] then []
    else [CardOf(refs[0], selected, isSelectionMode, selectedIds)] + Cards(refs[1..], selected, isSelectionMode, selectedIds)
  }

  /** The list: the empty state alone for no references, else the toolbar (in selection mode) and one card per reference. */
  function Render(refs: seq<Reference>, selected: Option<Reference>, isSelectionMode: bool,
                  selectedIds: seq<string>): View
  {
    if |refs| == 0 then EmptyState
    else
      Listing(
        if isSelectionMode then
          Some(Toolbar(AllSelected(refs, selectedIds), if |selectedIds| > 0 then Some(|selectedIds|) else None))
        else None,
        Cards(refs, selected, isSelectionMode, selectedIds))
  }

  /** An empty list shows the empty state and nothing else; a non-empty one shows its cards in order. */
  lemma RenderShowsEveryReference(refs: seq<Reference>, selected: Option<Reference>, isSelectionMode: bool,
                                  selectedIds: seq<string>)
    ensures Render(refs, selected, isSelectionMode, selectedIds).EmptyState? <==> refs == []
    ensures refs != [] ==> var v := Render(refs, selected, isSelectionMode, selectedIds);
      v.toolbar.Some? == isSelectionMode &&
      |v.cards| == |refs| && forall i :: 0 <= i < |refs| ==> v.cards[i].id == refs[i].id
  {
  }

  /** In selection mode exactly the selected references' cards are checked; outside it no card has a checkbox. */
  lemma CheckboxesFollowSelection(refs: seq<Reference>, selected: Option<Reference>, isSelectionMode: bool,
                                  selectedIds: seq<string>, i: nat)
    requires i < |refs|
    ensures var c := Cards(refs, selected, isSelectionMode, selectedIds)[i];
      (c.checkbox.Some? <==> isSelectionMode) && (c.checkbox.Some? ==> (c.checkbox.value <==> refs[i].id in selectedIds))
  {
  }
}
