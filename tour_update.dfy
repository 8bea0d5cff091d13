/**
 * `POST /api/tours/update`: checks the session, the id and the required fields, then
 * overwrites the base columns of the tour with the id and refreshes `updated_at`.
 */
module TourUpdate {
  import opened Wrappers
  import opened Js
  import opened Sql
  import opened Api
  import opened Auth
  import opened Tours

  function ServerError(): Response {
    Failure(500, "An error occurred while updating the tour")
  }

  /** The row update: the base columns as bound, and `updated_at = CURRENT_TIMESTAMP` read as `now`. */
  function UpdateValues(body: Record, now: Value): Row {
    TourValues(body)["updated_at" := now]
  }

  lemma UpdateValuesFit(t: TableState, body: Record, now: Value)
    requires Schema(t)
    ensures HasColumns(t, UpdateValues(body, now).Keys) && "id" !in UpdateValues(body, now)
  {
    ValuesFitSchema(t, body);
  }

  /**
   * The route's effect; `now` is the engine's current timestamp and `fault` says whether the
   * `execute` call throws.
   */
  function Update(t: TableState, authenticated: bool, body: Option<Record>, now: Value, fault: bool): (o: Outcome)
    requires Schema(t)
    ensures Schema(o.table)
  {
    if !authenticated then Outcome(Unauthorized(), t)
    else if body.None? then Outcome(ServerError(), t)
    else
      var id := Field(body.value, "id");
      if !Truthy(id) || !HasRequired(body.value) then Outcome(Failure(400, "All fields are required"), t)
      else if fault then Outcome(ServerError(), t)
      else
        UpdateValuesFit(t, body.value, now);
        Outcome(Success(), Updated(t, UpdateValues(body.value, now), IdEquals(id)).value)
  }

  /** Only a complete request with a session and no failing call succeeds; every other answer changes nothing. */
  lemma SucceedsOnlyWhenComplete(t: TableState, authenticated: bool, body: Option<Record>, now: Value, fault: bool)
    requires Schema(t)
    ensures var o := Update(t, authenticated, body, now, fault);
      && (IsSuccess(o.response) <==>
            authenticated && body.Some? && Truthy(Field(body.value, "id")) && HasRequired(body.value) && !fault)
      && (!IsSuccess(o.response) ==> o.table == t)
      && (!authenticated ==> o.response == Unauthorized())
  {
  }

  /**
   * A successful update keeps the set of rows and every row but the one with the id; that
   * row gets the request's base fields and `updated_at`, and keeps its other columns,
   * the per-language ones among them.
   */
  lemma ChangesOnlyThatTour(t: TableState, body: Record, now: Value)
    requires Schema(t) && Truthy(Field(body, "id")) && HasRequired(body)
    ensures var r := Update(t, true, Some(body), now, false).table;
      var v := UpdateValues(body, now);
      && r.rows.Keys == t.rows.Keys
      && (forall k | k in t.rows && KeyOf(Field(body, "id")) != Some(k) :: r.rows[k] == t.rows[k])
      && (forall k | k in t.rows && KeyOf(Field(body, "id")) == Some(k) ::
            && (forall c | c in v :: r.rows[k][c] == v[c])
            && (forall c | c in t.rows[k] && c !in v :: r.rows[k][c] == t.rows[k][c]))
  {
    UpdateValuesFit(t, body, now);
  }

  /** The per-language columns are never written. */
  lemma LeavesLocalizedColumns(t: TableState, body: Record, now: Value, k: int, c: string)
    requires Schema(t) && Truthy(Field(body, "id")) && HasRequired(body)
    requires k in t.rows && c in LocalizedColumns && c in t.rows[k]
    ensures Update(t, true, Some(body), now, false).table.rows[k][c] == t.rows[k][c]
  {
    var v := UpdateValues(body, now);
    LocalizedAreNotBase();
    assert c !in TourValues(body) && c != "updated_at";
    assert c !in v;
    ChangesOnlyThatTour(t, body, now);
    var r := Update(t, true, Some(body), now, false).table;
    if KeyOf(Field(body, "id")) == Some(k) {
      assert r.rows[k][c] == t.rows[k][c];
    }
  }

  /** An id that names no tour: success, and nothing changes. */
  lemma AbsentIdChangesNothing(t: TableState, body: Record, now: Value)
    requires Schema(t) && Truthy(Field(body, "id")) && HasRequired(body)
    requires forall k | k in t.rows :: KeyOf(Field(body, "id")) != Some(k)
    ensures Update(t, true, Some(body), now, false) == Outcome(Success(), t)
  {
    ChangesOnlyThatTour(t, body, now);
    var r := Update(t, true, Some(body), now, false).table;
    assert r.rows == t.rows;
  }

  /** `POST(request)` */
  method Post(db: Table, session: Session, body: Option<Record>, now: Value, fault: bool) returns (resp: Response)
    requires db.Valid() && Schema(db.State())
    modifies db
    ensures db.Valid()
    ensures Outcome(resp, db.State()) == Update(old(db.State()), session.IsAuthenticated(), body, now, fault)
  {
    var authenticated := session.IsAuthenticated();
    if !authenticated {
      return Unauthorized();
    }
    if body.None? {
      return ServerError();
    }
    var id := Field(body.value, "id");
    if !Truthy(id) || !HasRequired(body.value) {
      return Failure(400, "All fields are required");
    }
    UpdateValuesFit(db.State(), body.value, now);
    var ok := db.Execute(UpdateRows(UpdateValues(body.value, now), IdEquals(id)), fault);
    if !ok {
      return ServerError();
    }
    resp := Success();
  }
}
