/**
 * The review section of a tour page (components/TourReviews.js): the language fallback for
 * showing a comment, and the submit handler that translates a comment and upserts the
 * signed-in user's review.
 */
module TourReviews {
  import opened Wrappers
  import opened Js

  /** `getLocalizedComment(review, lang)`; `None` stands for a null or undefined review. */
  function LocalizedComment(review: Option<Record>, lang: string): (r: Value)
    ensures review.None? ==> r == Str("")
    ensures review.Some? && Truthy(Field(review.value, "comment_" + lang)) ==>
      r == Field(review.value, "comment_" + lang)
    ensures review.Some? && !Truthy(Field(review.value, "comment_" + lang)) && Truthy(Field(review.value, "comment_en")) ==>
      r == Field(review.value, "comment_en")
    ensures review.Some? && !Truthy(Field(review.value, "comment_" + lang)) && !Truthy(Field(review.value, "comment_en")) ==>
      r == Or(Field(review.value, "comment"), Str(""))
    ensures Truthy(r) || r == Str("")
  {
    match review
    case None => Str("")
    case Some(rv) =>
      if Truthy(Field(rv, "comment_" + lang)) then Field(rv, "comment_" + lang)
      else if Truthy(Field(rv, "comment_en")) then Field(rv, "comment_en")
      else Or(Field(rv, "comment"), Str(""))
  }

  /** An empty localized comment falls back like a missing one. */
  lemma EmptyVariantFallsBack(rv: Record, lang: string)
    requires "comment_" + lang in rv && rv["comment_" + lang] == Str("")
    ensures LocalizedComment(Some(rv), lang) == LocalizedComment(Some(rv - {"comment_" + lang}), lang)
  {
    var k := "comment_" + lang;
    if "comment_en" != k {
      assert Field(rv - {k}, "comment_en") == Field(rv, "comment_en");
    }
    if "comment" != k {
      assert Field(rv - {k}, "comment") == Field(rv, "comment");
    }
  }

  /** A review is keyed by tour and user: the upsert's `onConflict: 'tour_id, user_id'`. */
  datatype ReviewKey = ReviewKey(tourId: int, userId: string)

  type ReviewRows = map<ReviewKey, Record>

  /** Every stored review carries the tour and user of its key. */
  predicate Keyed(rows: ReviewRows) {
    forall k | k in rows :: Field(rows[k], "tour_id") == Num(k.tourId) && Field(rows[k], "user_id") == Str(k.userId)
  }

  /** The reviews table, as far as the submit handler writes it. */
  class ReviewTable {
    var rows: ReviewRows

    constructor ()
      ensures rows == map[]
    {
      rows := map[];
    }

    /** `upsert([row], { onConflict: 'tour_id, user_id' })`: a new review, or the given columns over the old one. */
    method Upsert(key: ReviewKey, row: Record)
      modifies this
      ensures rows == old(rows)[key := if key in old(rows) then old(rows)[key] + row else row]
    {
      rows := rows[key := if key in rows then rows[key] + row else row];
    }
  }

  /** What the `/api/reviews/translate` request yields; that route is not part of this model. */
  datatype Translation =
    | Threw(reason: string)        // `fetch` rejected
    | NotOk                        // `translationResponse.ok` is false
    | Unreadable(reason: string)   // `translationResponse.json()` rejected
    | Translated(body: Record)

  /** `dict?.reviews?.<key> || fallback` */
  function Text(texts: map<string, string>, key: string, fallback: string): string {
    if key in texts && texts[key] != "" then texts[key] else fallback
  }

  /** The three comment variants the upsert stores. */
  function CommentVariants(comment: string, t: Translation): (r: Record)
    requires t.NotOk? || t.Translated?
    ensures t.NotOk? ==> r == map["comment_en" := Str(comment), "comment_th" := Str(comment), "comment_zh" := Str(comment)]
  {
    if t.NotOk? then map["comment_en" := Str(comment), "comment_th" := Str(comment), "comment_zh" := Str(comment)]
    else t.body
  }

  /** The row the upsert writes for `user` on tour `tourId`. */
  function ReviewRow(tourId: int, user: string, rating: int, comment: string, t: Translation): (r: Record)
    requires t.NotOk? || t.Translated?
    ensures Field(r, "tour_id") == Num(tourId) && Field(r, "user_id") == Str(user)
    ensures Field(r, "comment") == Str(comment)
    ensures forall v | v in {"comment_en", "comment_th", "comment_zh"} :: Field(r, v) == Field(CommentVariants(comment, t), v)
  {
    var variants := CommentVariants(comment, t);
    map["tour_id" := Num(tourId), "user_id" := Str(user), "rating" := Num(rating), "comment" := Str(comment),
        "comment_en" := Field(variants, "comment_en"), "comment_th" := Field(variants, "comment_th"),
        "comment_zh" := Field(variants, "comment_zh")]
  }

  /** A merged upsert keeps every stored review tagged with its own key. */
  lemma UpsertKeepsKeyed(rows: ReviewRows, key: ReviewKey, row: Record)
    requires Keyed(rows) && Field(row, "tour_id") == Num(key.tourId) && Field(row, "user_id") == Str(key.userId)
    ensures Keyed(rows[key := if key in rows then rows[key] + row else row])
  {
  }

  /** The review form of one tour page. */
  class ReviewForm {
    const tourId: int
    var rating: int
    var comment: string
    var error: string
    var message: string
    var submitting: bool
    var isEditing: bool
    /** Whether `existingReview` is non-null: the user already has a review of this tour. */
    var hasExisting: bool

    constructor (tourId: int)
      ensures this.tourId == tourId && rating == 5 && comment == "" && error == "" && message == ""
      ensures !submitting && !isEditing && !hasExisting
    {
      this.tourId := tourId;
      rating, comment, error, message := 5, "", "", "";
      submitting, isEditing, hasExisting := false, false, false;
    }

    /**
     * `handleSubmitReview`. `user` is the signed-in user's id, `configured` whether a Supabase
     * client exists, `translation` what the translate request yields and `upsertError` the
     * message of the error the upsert reports, if any.
     */
    method Submit(table: ReviewTable, user: Option<string>, configured: bool, translation: Translation,
                  upsertError: Option<string>, texts: map<string, string>)
      modifies this, table
      ensures rating == old(rating) && comment == old(comment) && hasExisting == old(hasExisting)
      ensures user.None? ==>
        && error == Text(texts, "errorLogin", "Please login to submit a review")
        && message == old(message) && submitting == old(submitting) && isEditing == old(isEditing)
        && table.rows == old(table.rows)
      ensures user.Some? && !configured ==>
        && error == Text(texts, "errorConfig", "Supabase is not configured")
        && message == old(message) && submitting == old(submitting) && isEditing == old(isEditing)
        && table.rows == old(table.rows)
      ensures user.Some? && configured ==> !submitting
      ensures user.Some? && configured && (translation.Threw? || translation.Unreadable?) ==>
        && error == translation.reason && message == "" && isEditing == old(isEditing)
        && table.rows == old(table.rows)
      ensures user.Some? && configured && (translation.NotOk? || translation.Translated?) && upsertError.Some? ==>
        && error == upsertError.value && message == "" && isEditing == old(isEditing)
        && table.rows == old(table.rows)
      ensures user.Some? && configured && (translation.NotOk? || translation.Translated?) && upsertError.None? ==>
        var key := ReviewKey(tourId, user.value);
        var row := ReviewRow(tourId, user.value, old(rating), old(comment), translation);
        && table.rows == old(table.rows)[key := if key in old(table.rows) then old(table.rows)[key] + row else row]
        && error == "" && !isEditing
        && message == (if old(hasExisting) then Text(texts, "successUpdate", "Review updated successfully!")
                       else Text(texts, "successSubmit", "Review submitted successfully!"))
    {
      if user.None? {
        error := Text(texts, "errorLogin", "Please login to submit a review");
        return;
      }
      if !configured {
        error := Text(texts, "errorConfig", "Supabase is not configured");
        return;
      }
      Send(table, user.value, translation, upsertError, texts);
    }

    /** The `try` block of `handleSubmitReview`, once the user and the client are known. */
    method Send(table: ReviewTable, user: string, translation: Translation, upsertError: Option<string>,
                texts: map<string, string>)
      modifies this, table
      ensures rating == old(rating) && comment == old(comment) && hasExisting == old(hasExisting) && !submitting
      ensures translation.Threw? || translation.Unreadable? ==>
        && error == translation.reason && message == "" && isEditing == old(isEditing)
        && table.rows == old(table.rows)
      ensures (translation.NotOk? || translation.Translated?) && upsertError.Some? ==>
        && error == upsertError.value && message == "" && isEditing == old(isEditing)
        && table.rows == old(table.rows)
      ensures (translation.NotOk? || translation.Translated?) && upsertError.None? ==>
        var key := ReviewKey(tourId, user);
        var row := ReviewRow(tourId, user, old(rating), old(comment), translation);
        && table.rows == old(table.rows)[key := if key in old(table.rows) then old(table.rows)[key] + row else row]
        && error == "" && !isEditing
        && message == (if old(hasExisting) then Text(texts, "successUpdate", "Review updated successfully!")
                       else Text(texts, "successSubmit", "Review submitted successfully!"))
    {
      submitting := true;
      error := "";
      message := "";
      if translation.Threw? || translation.Unreadable? {
        error := translation.reason;
        submitting := false;
        return;
      }
      var row := ReviewRow(tourId, user, rating, comment, translation);
      if upsertError.Some? {
        error := upsertError.value;
        submitting := false;
        return;
      }
      table.Upsert(ReviewKey(tourId, user), row);
      message := if hasExisting then Text(texts, "successUpdate", "Review updated successfully!")
                 else Text(texts, "successSubmit", "Review submitted successfully!");
      isEditing := false;
      submitting := false;
    }
  }

  /** Without a translation every stored variant is the comment as typed. */
  lemma UntranslatedVariants(tourId: int, user: string, rating: int, comment: string)
    ensures var r := ReviewRow(tourId, user, rating, comment, NotOk);
      r["comment_en"] == Str(comment) && r["comment_th"] == Str(comment) && r["comment_zh"] == Str(comment)
  {
  }

  /** Submitting twice for the same tour and user leaves one review, holding the second submission's columns. */
  lemma ResubmitReplaces(rows: ReviewRows, key: ReviewKey, first: Record, second: Record)
    ensures var once := rows[key := if key in rows then rows[key] + first else first];
      var twice := once[key := once[key] + second];
      && twice.Keys == rows.Keys + {key}
      && (forall c | c in second :: twice[key][c] == second[c])
      && (forall k | k in rows && k != key :: twice[k] == rows[k])
  {
  }
}
