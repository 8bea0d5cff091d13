/** `POST /api/tours/delete`: checks the session and `tourId`, then deletes that tour. */
module TourDelete {
  import opened Wrappers
  import opened Js
  import opened Sql
  import opened Api
  import opened Auth
  import opened Tours

  function ServerError(): Response {
    Failure(500, "An error occurred while deleting the tour")
  }

  /** The route's effect; `fault` says whether the `execute` call throws. */
  function Delete(t: TableState, authenticated: bool, body: Option<Record>, fault: bool): (o: Outcome)
    requires Schema(t)
    ensures Schema(o.table)
  {
    if !authenticated then Outcome(Unauthorized(), t)
    else if body.None? then Outcome(ServerError(), t)
    else
      var tourId := Field(body.value, "tourId");
      if !Truthy(tourId) then Outcome(Failure(400, "Tour ID is required"), t)
      else if fault then Outcome(ServerError(), t)
      else Outcome(Success(), Deleted(t, tourId))
  }

  /** 401 without a session, 400 without `tourId`, 500 on a failing call; none of them changes the table. */
  lemma FailuresChangeNothing(t: TableState, authenticated: bool, body: Option<Record>, fault: bool)
    requires Schema(t)
    ensures var o := Delete(t, authenticated, body, fault);
      && (!IsSuccess(o.response) ==> o.table == t)
      && (!authenticated ==> o.response == Unauthorized())
      && (authenticated && body.Some? && !Truthy(Field(body.value, "tourId")) ==> o.response.status == 400)
      && (authenticated && body.Some? && Truthy(Field(body.value, "tourId")) && fault ==> o.response.status == 500)
  {
  }

  /** A valid request removes the tour with `tourId` and keeps every other; an absent id changes nothing. */
  lemma RemovesOnlyThatTour(t: TableState, body: Record)
    requires Schema(t) && Truthy(Field(body, "tourId"))
    ensures var o := Delete(t, true, Some(body), false);
      && o.response == Success()
      && (forall k :: k in o.table.rows <==> k in t.rows && KeyOf(Field(body, "tourId")) != Some(k))
      && (forall k | k in o.table.rows :: o.table.rows[k] == t.rows[k])
      && ((forall k | k in t.rows :: KeyOf(Field(body, "tourId")) != Some(k)) ==> o.table.rows == t.rows)
  {
  }

  /** `POST(request)` */
  method Post(db: Table, session: Session, body: Option<Record>, fault: bool) returns (resp: Response)
    requires db.Valid() && Schema(db.State())
    modifies db
    ensures db.Valid()
    ensures Outcome(resp, db.State()) == Delete(old(db.State()), session.IsAuthenticated(), body, fault)
  {
    var authenticated := session.IsAuthenticated();
    if !authenticated {
      return Unauthorized();
    }
    if body.None? {
      return ServerError();
    }
    var tourId := Field(body.value, "tourId");
    if !Truthy(tourId) {
      return Failure(400, "Tour ID is required");
    }
    var ok := db.Execute(DeleteRows(tourId), fault);
    if !ok {
      return ServerError();
    }
    resp := Success();
  }
}
