/**
 * The technical review sheet of a reference: the review it starts from, the update of one
 * field, the rating stars and label, and what saving hands to the store.
 */
module TechnicalSheet {
  import opened Wrappers
  import opened References

  /** The nine text fields of a review. */
  const TextFields: seq<string> := ["summary", "researchQuestion", "methodology", "keyFindings",
    "strengths", "weaknesses", "contributions", "futureWork", "personalNotes"]

  const RatingField := "rating"

  /** The labels of ratings 1 to 5. */
  const Labels: seq<string> := ["Poor", "Fair", "Good", "Very Good", "Excellent"]

  const NoRatingLabel := "Rate this paper"

  /** The star buttons, in order. */
  const Stars: seq<int> := [1, 2, 3, 4, 5]

  /** The default review: every text field empty and no rating. */
  function Defaults(): (d: Review)
    ensures d.Keys == (set k | k in TextFields) + {RatingField}
    ensures forall k :: k in TextFields ==> d[k] == Str("")
    ensures d[RatingField] == Num(0)
  {
    assert RatingField !in TextFields;
    (map k | k in TextFields :: Str(""))[RatingField := Num(0)]
  }

  /**
   * The review the sheet opens with: `{ ...defaults, ...reference.technicalReview }`, so each
   * key the stored review has overrides its default, and an absent review leaves the defaults.
   */
  function InitialReview(stored: Option<Review>): (r: Review)
    ensures stored.None? ==> r == Defaults()
    ensures stored.Some? ==> r.Keys == Defaults().Keys + stored.value.Keys
    ensures stored.Some? ==> forall k :: k in stored.value ==> r[k] == stored.value[k]
    ensures stored.Some? ==> forall k :: k in Defaults() && k !in stored.value ==> r[k] == Defaults()[k]
  {
    match stored
    case None => Defaults()
    case Some(s) => Defaults() + s
  }

  /** A stored review that already has every default key is opened unchanged. */
  lemma CompleteReviewOpensAsStored(s: Review)
    requires Defaults().Keys <= s.Keys
    ensures InitialReview(Some(s)) == s
  {
    var r := InitialReview(Some(s));
    assert r.Keys == s.Keys;
  }

  /** `handleFieldChange(field, value)`: `{ ...prev, [field]: value }`. */
  function FieldChange(review: Review, field: string, value: ReviewValue): (r: Review)
    ensures r.Keys == review.Keys + {field}
    ensures r[field] == value
    ensures forall k :: k in review && k != field ==> r[k] == review[k]
  {
    review[field := value]
  }

  /** Changing the same field twice keeps only the second value. */
  lemma FieldChangeLastWins(review: Review, field: string, v1: ReviewValue, v2: ReviewValue)
    ensures FieldChange(FieldChange(review, field, v1), field, v2) == FieldChange(review, field, v2)
  {
  }

  /** Changes to different fields do not interfere: their order does not matter. */
  lemma FieldChangesCommute(review: Review, f1: string, v1: ReviewValue, f2: string, v2: ReviewValue)
    requires f1 != f2
    ensures FieldChange(FieldChange(review, f1, v1), f2, v2) == FieldChange(FieldChange(review, f2, v2), f1, v1)
  {
    var a := FieldChange(FieldChange(review, f1, v1), f2, v2);
    var b := FieldChange(FieldChange(review, f2, v2), f1, v1);
    assert a.Keys == b.Keys;
    assert forall k :: k in a ==> a[k] == b[k];
  }

  /**
   * The rating as the stars compare it: the number stored under `rating`, and 0 when there is
   * none.
   */
  function Rating(review: Review): int
  {
    if RatingField in review && review[RatingField].Num? then review[RatingField].n else 0
  }

  /** Whether star `star` is drawn active: `star <= review.rating`. */
  predicate StarActive(star: int, review: Review)
  {
    star <= Rating(review)
  }

  /** The stars drawn active, in order. */
  function ActiveStars(stars: seq<int>, review: Review): (r: seq<int>)
    ensures forall s :: s in r <==> s in stars && StarActive(s, review)
  {
    if stars == [] then []
    else (if StarActive(stars[0], review) then [stars[0]] else []) + ActiveStars(stars[1..], review)
  }

  /** Clicking star `star` sets the rating to it. */
  function ClickStar(review: Review, star: int): Review
  {
    FieldChange(review, RatingField, Num(star))
  }

  /** After clicking star `star`, exactly the first `star` stars are active and the rating is `star`. */
  lemma ClickedStarsAreActive(review: Review, star: int)
    requires star in Stars
    ensures Rating(ClickStar(review, star)) == star
    ensures ActiveStars(Stars, ClickStar(review, star)) == Stars[..star]
  {
    var r := ClickStar(review, star);
    assert Rating(r) == star;
    assert forall i :: 0 <= i < |Stars| ==> Stars[i] == i + 1;
    ActivePrefix(Stars, r, star);
  }

  /** When the active stars are the first `k`, they are what `ActiveStars` lists. */
  lemma {:induction false} ActivePrefix(stars: seq<int>, review: Review, k: nat)
    requires k <= |stars|
    requires forall i :: 0 <= i < k ==> StarActive(stars[i], review)
    requires forall i :: k <= i < |stars| ==> !StarActive(stars[i], review)
    ensures ActiveStars(stars, review) == stars[..k]
  {
    if stars != [] {
      if k == 0 {
        ActivePrefix(stars[1..], review, 0);
      } else {
        ActivePrefix(stars[1..], review, k - 1);
        assert stars[..k] == [stars[0]] + stars[1..][..k - 1];
      }
    }
  }

  /** The text under the stars. A rating above 5 indexes past the labels and renders nothing. */
  function RatingLabel(rating: int): (text: string)
    ensures 1 <= rating <= 5 ==> text == Labels[rating - 1]
    ensures rating <= 0 ==> text == NoRatingLabel
    ensures rating > 5 ==> text == ""
  {
    if rating > 0 then (if rating <= |Labels| then Labels[rating - 1] else "") else NoRatingLabel
  }

  /** Every rating a star can set has its own label, different from the unrated one. */
  lemma RatingLabelIdentifiesRating(a: int, b: int)
    requires a in Stars && b in Stars
    ensures RatingLabel(a) != NoRatingLabel && RatingLabel(a) != ""
    ensures RatingLabel(a) == RatingLabel(b) ==> a == b
  {
    assert a == 1 || a == 2 || a == 3 || a == 4 || a == 5;
    assert b == 1 || b == 2 || b == 3 || b == 4 || b == 5;
  }

  /** What `onSave` is called with: a reference id and an update object. */
  datatype SaveCall = SaveCall(id: string, updates: Patch)

  /** `handleSave`: the reference's id and the update object `{ technicalReview: review }`. */
  function Save(r: Reference, review: Review): SaveCall
  {
    SaveCall(r.id, NoUpdates.(technicalReview := Some(review)))
  }

  /** Saving changes the stored review and nothing else. */
  lemma SaveReplacesOnlyReview(r: Reference, review: Review)
    ensures Save(r, review).id == r.id
    ensures Apply(r, Save(r, review).updates) == r.(technicalReview := Some(review))
  {
  }

  /** A review the sheet opened with and saved is what the sheet opens with next time. */
  lemma SavedReviewReopens(r: Reference, edited: Review)
    requires Defaults().Keys <= edited.Keys
    ensures InitialReview(Apply(r, Save(r, edited).updates).technicalReview) == edited
  {
    SaveReplacesOnlyReview(r, edited);
    CompleteReviewOpensAsStored(edited);
  }

  /** Every review the sheet holds has all the default keys, so the round trip above applies to it. */
  lemma SheetReviewsAreComplete(stored: Option<Review>, field: string, value: ReviewValue)
    ensures Defaults().Keys <= InitialReview(stored).Keys
    ensures Defaults().Keys <= FieldChange(InitialReview(stored), field, value).Keys
  {
  }
}
