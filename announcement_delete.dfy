/** `POST /api/announcements/delete`: checks the session and the id, then deletes the row with the id. */
module AnnouncementDelete {
  import opened Wrappers
  import opened Js
  import opened Sql
  import opened Api
  import opened Auth
  import opened Announcements

  function ServerError(): Response {
    Failure(500, "An error occurred while deleting the announcement")
  }

  /** The route's effect; `fault` says whether the one `execute` call throws. */
  function Delete(t: TableState, authenticated: bool, body: Option<Record>, fault: bool): (o: Outcome)
    requires Schema(t)
    ensures Schema(o.table)
  {
    if !authenticated then Outcome(Unauthorized(), t)
    else if body.None? then Outcome(ServerError(), t)
    else
      var id := Field(body.value, "id");
      if !Truthy(id) then Outcome(Failure(400, "Announcement ID is required"), t)
      else if fault then Outcome(ServerError(), t)
      else Outcome(Success(), Deleted(t, id))
  }

  /** Every answer but success leaves the table as it was: 401, 400 and 500 alike. */
  lemma FailuresChangeNothing(t: TableState, authenticated: bool, body: Option<Record>, fault: bool)
    requires Schema(t)
    ensures var o := Delete(t, authenticated, body, fault);
      && (!IsSuccess(o.response) ==> o.table == t)
      && (!authenticated ==> o.response == Unauthorized())
      && (authenticated && body.Some? && !Truthy(Field(body.value, "id")) ==> o.response.status == 400)
  {
  }

  /**
   * A valid request succeeds, removes the row with the id and keeps every other row; an id
   * naming no row leaves the table unchanged and still succeeds.
   */
  lemma RemovesOnlyThatRow(t: TableState, body: Record)
    requires Schema(t) && Truthy(Field(body, "id"))
    ensures var o := Delete(t, true, Some(body), false);
      && o.response == Success()
      && (forall k :: k in o.table.rows <==> k in t.rows && KeyOf(Field(body, "id")) != Some(k))
      && (forall k | k in o.table.rows :: o.table.rows[k] == t.rows[k])
      && ((forall k | k in t.rows :: KeyOf(Field(body, "id")) != Some(k)) ==> o.table.rows == t.rows)
  {
  }

  /** Deleting cannot make a second announcement active. */
  lemma KeepsAtMostOneActive(t: TableState, authenticated: bool, body: Option<Record>, fault: bool)
    requires Schema(t) && AtMostOneActive(t.rows)
    ensures AtMostOneActive(Delete(t, authenticated, body, fault).table.rows)
  {
    var o := Delete(t, authenticated, body, fault);
    assert ActiveIds(o.table.rows) <= ActiveIds(t.rows);
    FewerActive(t.rows, o.table.rows);
  }

  /** `POST(request)` */
  method Post(db: Table, session: Session, body: Option<Record>, fault: bool) returns (resp: Response)
    requires db.Valid() && Schema(db.State())
    modifies db
    ensures db.Valid()
    ensures Outcome(resp, db.State()) == Delete(old(db.State()), session.IsAuthenticated(), body, fault)
  {
    var authenticated := session.IsAuthenticated();
    if !authenticated {
      return Unauthorized();
    }
    if body.None? {
      return ServerError();
    }
    var id := Field(body.value, "id");
    if !Truthy(id) {
      return Failure(400, "Announcement ID is required");
    }
    var ok := db.Execute(DeleteRows(id), fault);
    if !ok {
      return ServerError();
    }
    resp := Success();
  }
}
