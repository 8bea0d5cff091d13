/**
 * `POST /api/announcements/toggle`: checks the session and the id; activating first
 * deactivates every announcement, then the row with the id gets the requested flag.
 */
module AnnouncementToggle {
  import opened Wrappers
  import opened Js
  import opened Sql
  import opened Api
  import opened Auth
  import opened Announcements

  function ServerError(): Response {
    Failure(500, "An error occurred while toggling the announcement")
  }

  /** The route's effect; `fault` is the index of the `execute` call that throws, if one does. */
  function Toggle(t: TableState, authenticated: bool, body: Option<Record>, fault: Option<nat>): (o: Outcome)
    requires Schema(t)
    ensures Schema(o.table)
  {
    if !authenticated then Outcome(Unauthorized(), t)
    else if body.None? then Outcome(ServerError(), t)
    else
      var id := Field(body.value, "id");
      var isActive := Truthy(Field(body.value, "is_active"));
      if !Truthy(id) then Outcome(Failure(400, "Announcement ID is required"), t)
      else if isActive && fault == Some(0) then Outcome(ServerError(), t)
      else
        DeactivateAllSpec(t);
        var t1 := if isActive then Apply(t, DeactivateAll()).value else t;
        SetActiveSpec(t1, id, isActive);
        if fault == Some(if isActive then 1 else 0) then Outcome(ServerError(), t1)
        else Outcome(Success(), Apply(t1, SetActive(id, isActive)).value)
  }

  /** Without a session (401) or without an id (400) the table is unchanged. */
  lemma RejectionsChangeNothing(t: TableState, authenticated: bool, body: Option<Record>, fault: Option<nat>)
    requires Schema(t)
    ensures !authenticated ==> Toggle(t, authenticated, body, fault) == Outcome(Unauthorized(), t)
    ensures authenticated && body.Some? && !Truthy(Field(body.value, "id")) ==>
      Toggle(t, authenticated, body, fault) == Outcome(Failure(400, "Announcement ID is required"), t)
  {
  }

  /** A successful toggle's table: the deactivation (when activating), then the flag on the row with the id. */
  lemma SuccessfulTable(t: TableState, body: Record, fault: Option<nat>)
    requires Schema(t)
    requires IsSuccess(Toggle(t, true, Some(body), fault).response)
    ensures var on := Truthy(Field(body, "is_active"));
      var t1 := if on then Apply(t, DeactivateAll()).value else t;
      Toggle(t, true, Some(body), fault).table == Apply(t1, SetActive(Field(body, "id"), on)).value
  {
  }

  /** A successful activation sets the row with the id active and every other row inactive. */
  lemma ActivationTable(t: TableState, body: Record, fault: Option<nat>)
    requires Schema(t) && Truthy(Field(body, "is_active"))
    requires IsSuccess(Toggle(t, true, Some(body), fault).response)
    ensures var r := Toggle(t, true, Some(body), fault).table;
      && r.rows.Keys == t.rows.Keys
      && forall j | j in t.rows ::
           r.rows[j] == t.rows[j]["is_active" := Num(if KeyOf(Field(body, "id")) == Some(j) then 1 else 0)]
  {
    SuccessfulTable(t, body, fault);
    DeactivateThenSet(t, Field(body, "id"));
  }

  /** Activating an existing announcement makes it the only active one. */
  lemma ActivatingExistingLeavesExactlyIt(t: TableState, body: Record, fault: Option<nat>, k: int)
    requires Schema(t) && Truthy(Field(body, "is_active"))
    requires k in t.rows && KeyOf(Field(body, "id")) == Some(k)
    requires IsSuccess(Toggle(t, true, Some(body), fault).response)
    ensures ActiveIds(Toggle(t, true, Some(body), fault).table.rows) == {k}
  {
    ActivationTable(t, body, fault);
    FlagsOnlyThatRow(t.rows, Toggle(t, true, Some(body), fault).table.rows, Field(body, "id"));
  }

  /** Activating an id that names no row leaves no announcement active. */
  lemma ActivatingAbsentLeavesNone(t: TableState, body: Record, fault: Option<nat>)
    requires Schema(t) && Truthy(Field(body, "is_active"))
    requires forall k | k in t.rows :: KeyOf(Field(body, "id")) != Some(k)
    requires IsSuccess(Toggle(t, true, Some(body), fault).response)
    ensures ActiveIds(Toggle(t, true, Some(body), fault).table.rows) == {}
  {
    ActivationTable(t, body, fault);
    FlagsOnlyThatRow(t.rows, Toggle(t, true, Some(body), fault).table.rows, Field(body, "id"));
  }

  /** Deactivating changes only the row with the id, and in that row only `is_active`, which becomes 0. */
  lemma DeactivatingChangesOnlyThatRow(t: TableState, body: Record, fault: Option<nat>)
    requires Schema(t) && !Truthy(Field(body, "is_active"))
    requires IsSuccess(Toggle(t, true, Some(body), fault).response)
    ensures var r := Toggle(t, true, Some(body), fault).table;
      && r.rows.Keys == t.rows.Keys
      && forall k | k in t.rows ::
           r.rows[k] == if KeyOf(Field(body, "id")) == Some(k) then t.rows[k]["is_active" := Num(0)] else t.rows[k]
  {
    SuccessfulTable(t, body, fault);
    SetActiveSpec(t, Field(body, "id"), false);
  }

  /** The table a toggle leaves: before, deactivated, or a successful toggle's. */
  lemma TableCases(t: TableState, authenticated: bool, body: Option<Record>, fault: Option<nat>)
    requires Schema(t)
    ensures var o := Toggle(t, authenticated, body, fault);
      || o.table == t
      || ActiveIds(o.table.rows) == {}
      || (IsSuccess(o.response) && authenticated && body.Some?)
  {
    DeactivateAllSpec(t);
  }

  /** At most one active announcement before means at most one after. */
  lemma KeepsAtMostOneActive(t: TableState, authenticated: bool, body: Option<Record>, fault: Option<nat>)
    requires Schema(t) && AtMostOneActive(t.rows)
    ensures AtMostOneActive(Toggle(t, authenticated, body, fault).table.rows)
  {
    var o := Toggle(t, authenticated, body, fault);
    TableCases(t, authenticated, body, fault);
    if o.table != t && ActiveIds(o.table.rows) != {} {
      var b := body.value;
      var id := Field(b, "id");
      if Truthy(Field(b, "is_active")) {
        ActivationTable(t, b, fault);
        FlagsOnlyThatRow(t.rows, o.table.rows, id);
        if k :| k in t.rows && KeyOf(id) == Some(k) {
          OneActive(o.table.rows, k);
        }
      } else {
        DeactivatingChangesOnlyThatRow(t, b, fault);
        ClearingShrinks(t.rows, o.table.rows, id);
        FewerActive(t.rows, o.table.rows);
      }
    }
  }

  /** `POST(request)` */
  method Post(db: Table, session: Session, body: Option<Record>, fault: Option<nat>) returns (resp: Response)
    requires db.Valid() && Schema(db.State())
    modifies db
    ensures db.Valid()
    ensures Outcome(resp, db.State()) == Toggle(old(db.State()), session.IsAuthenticated(), body, fault)
  {
    var authenticated := session.IsAuthenticated();
    if !authenticated {
      return Unauthorized();
    }
    if body.None? {
      return ServerError();
    }
    var id := Field(body.value, "id");
    var isActive := Truthy(Field(body.value, "is_active"));
    if !Truthy(id) {
      return Failure(400, "Announcement ID is required");
    }
    DeactivateAllSpec(db.State());
    var call := 0;
    if isActive {
      var ok := db.Execute(DeactivateAll(), fault == Some(call));
      if !ok {
        return ServerError();
      }
      call := call + 1;
    }
    SetActiveSpec(db.State(), id, isActive);
    var ok := db.Execute(SetActive(id, isActive), fault == Some(call));
    if !ok {
      return ServerError();
    }
    resp := Success();
  }
}
