/**
 * `POST /api/announcements/create`: checks the session and the message, deactivates every
 * announcement when the new one is active, then inserts it. The two statements are not in a
 * transaction.
 */
module AnnouncementCreate {
  import opened Wrappers
  import opened Js
  import opened Sql
  import opened Api
  import opened Auth
  import opened Announcements

  function ServerError(): Response {
    Failure(500, "An error occurred while creating the announcement")
  }

  /** The row the route inserts: the message, and `is_active` as 1 or 0. */
  function NewAnnouncement(message: Value, isActive: Value): Row {
    map["message" := message, "is_active" := Num(if Truthy(isActive) then 1 else 0)]
  }

  /**
   * The route's effect. `body` is the parsed JSON body (`None` when it does not parse) and
   * `fault` the index of the `execute` call that throws, if one does.
   */
  function Create(t: TableState, authenticated: bool, body: Option<Record>, fault: Option<nat>): (o: Outcome)
    requires Schema(t)
    ensures Schema(o.table)
  {
    if !authenticated then Outcome(Unauthorized(), t)
    else if body.None? then Outcome(ServerError(), t)
    else
      var message := Field(body.value, "message");
      var isActive := Field(body.value, "is_active");
      if !Truthy(message) then Outcome(Failure(400, "Message is required"), t)
      else Stored(t, body.value, fault)
  }

  /**
   * The statements of a request that passed the checks: the deactivation when the new
   * announcement is active, then the insert; a throwing call ends the route with 500.
   */
  function Stored(t: TableState, body: Record, fault: Option<nat>): (o: Outcome)
    requires Schema(t)
    ensures Schema(o.table)
  {
    var message := Field(body, "message");
    var isActive := Field(body, "is_active");
    if Truthy(isActive) && fault == Some(0) then Outcome(ServerError(), t)
    else
      var t1 := if Truthy(isActive) then Apply(t, DeactivateAll()).value else t;
      DeactivateAllSpec(t);
      if fault == Some(if Truthy(isActive) then 1 else 0) then Outcome(ServerError(), t1)
      else Outcome(Success(), Inserted(t1, NewAnnouncement(message, isActive)).value)
  }

  /** Without a session the route answers 401 and the table is unchanged. */
  lemma UnauthenticatedIsRejected(t: TableState, body: Option<Record>, fault: Option<nat>)
    requires Schema(t)
    ensures Create(t, false, body, fault) == Outcome(Unauthorized(), t)
  {
  }

  /** A falsy message is answered 400 and the table is unchanged. */
  lemma MessageIsRequired(t: TableState, body: Record, fault: Option<nat>)
    requires Schema(t) && !Truthy(Field(body, "message"))
    ensures Create(t, true, Some(body), fault) == Outcome(Failure(400, "Message is required"), t)
  {
  }

  /** The route succeeds exactly when the session, the body and the message are there and no call throws. */
  lemma SucceedsWhen(t: TableState, authenticated: bool, body: Option<Record>, fault: Option<nat>)
    requires Schema(t)
    ensures IsSuccess(Create(t, authenticated, body, fault).response) <==>
      && authenticated && body.Some? && Truthy(Field(body.value, "message"))
      && (fault.Some? ==> fault.value > (if Truthy(Field(body.value, "is_active")) then 1 else 0))
  {
  }

  /**
   * On success exactly one row is added, under the next id, holding the message and
   * `is_active` 1 iff the request asked for it; an active create first set every other row
   * inactive, an inactive one left them alone.
   */
  lemma InsertsOneRow(t: TableState, body: Record, fault: Option<nat>)
    requires Schema(t)
    requires IsSuccess(Create(t, true, Some(body), fault).response)
    ensures var r := Create(t, true, Some(body), fault).table;
      var isActive := Truthy(Field(body, "is_active"));
      && t.nextId !in t.rows
      && r.rows.Keys == t.rows.Keys + {t.nextId}
      && r.rows[t.nextId]["message"] == Field(body, "message")
      && r.rows[t.nextId]["is_active"] == Num(if isActive then 1 else 0)
      && forall k | k in t.rows :: r.rows[k] == if isActive then t.rows[k]["is_active" := Num(0)] else t.rows[k]
  {
    NewRowStored(t, body, fault);
    OtherRowsKept(t, body, fault);
  }

  lemma NewRowStored(t: TableState, body: Record, fault: Option<nat>)
    requires Schema(t)
    requires IsSuccess(Create(t, true, Some(body), fault).response)
    ensures var r := Create(t, true, Some(body), fault).table;
      && t.nextId !in t.rows
      && r.rows.Keys == t.rows.Keys + {t.nextId}
      && r.rows[t.nextId]["message"] == Field(body, "message")
      && r.rows[t.nextId]["is_active"] == Num(if Truthy(Field(body, "is_active")) then 1 else 0)
  {
    var t1 := AfterDeactivation(t, body);
    var row := NewAnnouncement(Field(body, "message"), Field(body, "is_active"));
    SuccessfulTable(t, body, fault);
    InsertedSpec(t1, row);
  }

  lemma OtherRowsKept(t: TableState, body: Record, fault: Option<nat>)
    requires Schema(t)
    requires IsSuccess(Create(t, true, Some(body), fault).response)
    ensures t.rows.Keys <= Create(t, true, Some(body), fault).table.rows.Keys
    ensures var r := Create(t, true, Some(body), fault).table;
      forall k | k in t.rows :: r.rows[k] == if Truthy(Field(body, "is_active")) then t.rows[k]["is_active" := Num(0)] else t.rows[k]
  {
    var t1 := AfterDeactivation(t, body);
    var row := NewAnnouncement(Field(body, "message"), Field(body, "is_active"));
    SuccessfulTable(t, body, fault);
    InsertedSpec(t1, row);
  }

  /** The table after the optional deactivation: same ids and counter, flags cleared when the new row is active. */
  lemma AfterDeactivation(t: TableState, body: Record) returns (t1: TableState)
    requires Schema(t)
    ensures Schema(t1) && t1.rows.Keys == t.rows.Keys && t1.nextId == t.nextId
    ensures t1 == if Truthy(Field(body, "is_active")) then Apply(t, DeactivateAll()).value else t
    ensures forall k | k in t.rows :: t1.rows[k] == if Truthy(Field(body, "is_active")) then t.rows[k]["is_active" := Num(0)] else t.rows[k]
  {
    DeactivateAllSpec(t);
    t1 := if Truthy(Field(body, "is_active")) then Apply(t, DeactivateAll()).value else t;
  }

  /** A successful create's table: the deactivation (for an active one), then the insert. */
  lemma SuccessfulTable(t: TableState, body: Record, fault: Option<nat>)
    requires Schema(t)
    requires IsSuccess(Create(t, true, Some(body), fault).response)
    ensures Create(t, true, Some(body), fault).table ==
      var t1 := if Truthy(Field(body, "is_active")) then Apply(t, DeactivateAll()).value else t;
      Inserted(t1, NewAnnouncement(Field(body, "message"), Field(body, "is_active"))).value
  {
  }

  lemma InsertedSpec(t: TableState, row: Row)
    requires Schema(t) && row.Keys == {"message", "is_active"}
    ensures Inserted(t, row).Some?
    ensures var r := Inserted(t, row).value;
      && t.nextId !in t.rows
      && r.rows.Keys == t.rows.Keys + {t.nextId}
      && r.rows[t.nextId]["message"] == row["message"]
      && r.rows[t.nextId]["is_active"] == row["is_active"]
      && forall k | k in t.rows :: r.rows[k] == t.rows[k]
  {
  }

  /** An active create leaves the new row as the only active announcement. */
  lemma ActiveCreateIsTheOnlyActive(t: TableState, body: Record, fault: Option<nat>)
    requires Schema(t) && Truthy(Field(body, "is_active"))
    requires IsSuccess(Create(t, true, Some(body), fault).response)
    ensures ActiveIds(Create(t, true, Some(body), fault).table.rows) == {t.nextId}
  {
    InsertsOneRow(t, body, fault);
    OnlyNewActive(t.rows, Create(t, true, Some(body), fault).table.rows, t.nextId);
  }

  /** The table a create leaves: the old one, the old one with every row deactivated, or a successful create's. */
  lemma TableCases(t: TableState, authenticated: bool, body: Option<Record>, fault: Option<nat>)
    requires Schema(t)
    ensures var o := Create(t, authenticated, body, fault);
      || o.table == t
      || (o.response == ServerError() && ActiveIds(o.table.rows) == {})
      || (IsSuccess(o.response) && authenticated && body.Some?)
  {
    DeactivateAllSpec(t);
  }

  /** Whatever happens, at most one active announcement before means at most one after. */
  lemma KeepsAtMostOneActive(t: TableState, authenticated: bool, body: Option<Record>, fault: Option<nat>)
    requires Schema(t) && AtMostOneActive(t.rows)
    ensures AtMostOneActive(Create(t, authenticated, body, fault).table.rows)
  {
    var o := Create(t, authenticated, body, fault);
    TableCases(t, authenticated, body, fault);
    if o.table != t && IsSuccess(o.response) && authenticated && body.Some? {
      if Truthy(Field(body.value, "is_active")) {
        ActiveCreateIsTheOnlyActive(t, body.value, fault);
      } else {
        InsertsOneRow(t, body.value, fault);
        InactiveInsert(t.rows, o.table.rows, t.nextId);
      }
    }
  }

  /** The request's `type` and `image_url` are neither read nor stored. */
  lemma IgnoresTypeAndImage(t: TableState, authenticated: bool, body: Record, fault: Option<nat>)
    requires Schema(t)
    ensures Create(t, authenticated, Some(body), fault) == Create(t, authenticated, Some(body - {"type", "image_url"}), fault)
  {
    assert Field(body, "message") == Field(body - {"type", "image_url"}, "message");
    assert Field(body, "is_active") == Field(body - {"type", "image_url"}, "is_active");
  }

  /** Not atomic: when the insert of an active announcement throws, no announcement is left active. */
  lemma FailedActiveInsertLeavesNoneActive(t: TableState, body: Record)
    requires Schema(t) && Truthy(Field(body, "message")) && Truthy(Field(body, "is_active"))
    ensures var o := Create(t, true, Some(body), Some(1));
      o.response == ServerError() && ActiveIds(o.table.rows) == {}
  {
    DeactivateAllSpec(t);
  }

  /** The statements of a request that passed the checks: the optional deactivation, then the insert. */
  method Store(db: Table, body: Record, fault: Option<nat>) returns (resp: Response)
    requires db.Valid() && Schema(db.State()) && Truthy(Field(body, "message"))
    modifies db
    ensures db.Valid()
    ensures Outcome(resp, db.State()) == Stored(old(db.State()), body, fault)
  {
    ghost var t1 := AfterDeactivation(db.State(), body);
    var isActive := Field(body, "is_active");
    var row := NewAnnouncement(Field(body, "message"), isActive);
    var call := 0;
    if Truthy(isActive) {
      var ok := db.Execute(DeactivateAll(), fault == Some(call));
      if !ok {
        return ServerError();
      }
      call := call + 1;
    }
    assert db.State() == t1;
    var ok := db.Execute(InsertRow(row), fault == Some(call));
    if !ok {
      return ServerError();
    }
    resp := Success();
  }

  /** `POST(request)` */
  method Post(db: Table, session: Session, body: Option<Record>, fault: Option<nat>) returns (resp: Response)
    requires db.Valid() && Schema(db.State())
    modifies db
    ensures db.Valid()
    ensures Outcome(resp, db.State()) == Create(old(db.State()), session.IsAuthenticated(), body, fault)
  {
    var authenticated := session.IsAuthenticated();
    if !authenticated {
      return Unauthorized();
    }
    if body.None? {
      return ServerError();
    }
    if !Truthy(Field(body.value, "message")) {
      return Failure(400, "Message is required");
    }
    resp := Store(db, body.value, fault);
  }
}
