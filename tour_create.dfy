/** `POST /api/tours/create`: checks the session and the required fields, then inserts the tour. */
module TourCreate {
  import opened Wrappers
  import opened Js
  import opened Sql
  import opened Api
  import opened Auth
  import opened Tours

  function ServerError(): Response {
    Failure(500, "An error occurred while creating the tour")
  }

  /** The route's effect; `fault` says whether the `execute` call throws. */
  function Create(t: TableState, authenticated: bool, body: Option<Record>, fault: bool): (o: Outcome)
    requires Schema(t)
    ensures Schema(o.table)
  {
    if !authenticated then Outcome(Unauthorized(), t)
    else if body.None? then Outcome(ServerError(), t)
    else if !HasRequired(body.value) then Outcome(Failure(400, "All fields are required"), t)
    else if fault then Outcome(ServerError(), t)
    else
      ValuesFitSchema(t, body.value);
      Outcome(Success(), Inserted(t, TourValues(body.value)).value)
  }

  /**
   * Only a request with a session, a body, every required field and no failing call
   * succeeds; every other answer (401, 400 or 500) leaves the table as it was.
   */
  lemma SucceedsOnlyWhenComplete(t: TableState, authenticated: bool, body: Option<Record>, fault: bool)
    requires Schema(t)
    ensures var o := Create(t, authenticated, body, fault);
      && (IsSuccess(o.response) <==> authenticated && body.Some? && HasRequired(body.value) && !fault)
      && (!IsSuccess(o.response) ==> o.table == t)
      && (!authenticated ==> o.response == Unauthorized())
      && (authenticated && body.Some? && !HasRequired(body.value) ==> o.response.status == 400)
  {
  }

  /** A price of 0 is falsy, so such a tour is refused as incomplete. */
  lemma ZeroPriceIsRefused(t: TableState, body: Record, fault: bool)
    requires Schema(t) && Field(body, "price") == Num(0)
    ensures Create(t, true, Some(body), fault) == Outcome(Failure(400, "All fields are required"), t)
  {
    assert "price" in RequiredFields;
  }

  /**
   * A successful create adds exactly one row, under the next id, holding the request's
   * required fields, its images or `null` and `'[]'`, and keeps every other row.
   */
  lemma InsertsTheTour(t: TableState, body: Record)
    requires Schema(t) && HasRequired(body)
    ensures var r := Create(t, true, Some(body), false).table;
      && t.nextId !in t.rows
      && r.rows.Keys == t.rows.Keys + {t.nextId}
      && (forall k | k in t.rows :: r.rows[k] == t.rows[k])
      && StoresTour(r.rows[t.nextId], body)
  {
    ValuesFitSchema(t, body);
    var r := Create(t, true, Some(body), false).table;
    StoredValues(TourValues(body), r.rows[t.nextId], body);
  }

  /** A stored row holds the request's required fields and its images or `null` and `'[]'`. */
  predicate StoresTour(row: Row, body: Record) {
    && (forall f | f in RequiredFields :: f in row && row[f] == Field(body, f))
    && "banner_image" in row && row["banner_image"] == Or(Field(body, "banner_image"), Null)
    && "image_urls" in row && row["image_urls"] == Or(Field(body, "image_urls"), Str("[]"))
  }

  lemma StoredValues(v: Row, row: Row, body: Record)
    requires v == TourValues(body)
    requires forall c | c in v :: c in row && row[c] == v[c]
    ensures StoresTour(row, body)
  {
    TourValuesBind(body);
    assert forall f | f in RequiredFields :: f in v;
  }

  /** `POST(request)` */
  method Post(db: Table, session: Session, body: Option<Record>, fault: bool) returns (resp: Response)
    requires db.Valid() && Schema(db.State())
    modifies db
    ensures db.Valid()
    ensures Outcome(resp, db.State()) == Create(old(db.State()), session.IsAuthenticated(), body, fault)
  {
    var authenticated := session.IsAuthenticated();
    if !authenticated {
      return Unauthorized();
    }
    if body.None? {
      return ServerError();
    }
    if !HasRequired(body.value) {
      return Failure(400, "All fields are required");
    }
    ValuesFitSchema(db.State(), body.value);
    var ok := db.Execute(InsertRow(TourValues(body.value)), fault);
    if !ok {
      return ServerError();
    }
    resp := Success();
  }
}
