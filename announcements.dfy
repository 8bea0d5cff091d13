/** The announcements table and the rule the admin routes keep: at most one announcement is active. */
module Announcements {
  import opened Wrappers
  import opened Js
  import opened Sql

  /** The columns the announcement routes read and write. */
  predicate Schema(t: TableState) {
    WellFormed(t) && "message" in t.columns && "is_active" in t.columns
  }

  /** A row the site shows as the current announcement. */
  predicate Active(row: Row) {
    Truthy(Field(row, "is_active"))
  }

  function ActiveIds(rows: Rows): set<int> {
    set k | k in rows && Active(rows[k])
  }

  predicate AtMostOneActive(rows: Rows) {
    forall a, b | a in ActiveIds(rows) && b in ActiveIds(rows) :: a == b
  }

  /** `UPDATE announcements SET is_active = 0` */
  function DeactivateAll(): Statement {
    UpdateRows(map["is_active" := Num(0)], All)
  }

  /** After deactivating every row, no row is active and each row differs from before only in `is_active`. */
  lemma DeactivateAllSpec(t: TableState)
    requires Schema(t)
    ensures Apply(t, DeactivateAll()).Some?
    ensures var r := Apply(t, DeactivateAll()).value;
      && Schema(r) && ActiveIds(r.rows) == {} && r.rows.Keys == t.rows.Keys && r.nextId == t.nextId
      && forall k | k in t.rows :: r.rows[k] == t.rows[k]["is_active" := Num(0)]
  {
    SetColumnSpec(t, "is_active", Num(0), All);
    var r := Apply(t, DeactivateAll()).value;
    NoneActive(t.rows, r.rows);
  }

  lemma NoneActive(before: Rows, after: Rows)
    requires after.Keys == before.Keys
    requires forall k | k in before :: after[k] == before[k]["is_active" := Num(0)]
    ensures ActiveIds(after) == {}
  {
    forall k | k in after ensures !Active(after[k]) {
      assert after[k]["is_active"] == Num(0);
    }
  }

  /** Fewer active rows keep the rule. */
  lemma FewerActive(before: Rows, after: Rows)
    requires AtMostOneActive(before) && ActiveIds(after) <= ActiveIds(before)
    ensures AtMostOneActive(after)
  {
  }

  /** A single active row satisfies the rule. */
  lemma OneActive(rows: Rows, k: int)
    requires ActiveIds(rows) <= {k}
    ensures AtMostOneActive(rows)
  {
  }

  /** After an insert of row `n` with every old row deactivated, only `n` can be active. */
  lemma OnlyNewActive(before: Rows, after: Rows, n: int)
    requires n !in before && after.Keys == before.Keys + {n} && Active(after[n])
    requires forall k | k in before :: after[k] == before[k]["is_active" := Num(0)]
    ensures ActiveIds(after) == {n}
  {
    forall k | k in after && k != n ensures !Active(after[k]) {
      assert after[k] == before[k]["is_active" := Num(0)];
    }
  }

  /** An insert of an inactive row `n` leaves the active rows as they were. */
  lemma InactiveInsert(before: Rows, after: Rows, n: int)
    requires n !in before && after.Keys == before.Keys + {n} && !Active(after[n])
    requires forall k | k in before :: after[k] == before[k]
    ensures ActiveIds(after) == ActiveIds(before)
  {
    forall k | k in after ensures k in ActiveIds(after) <==> k in ActiveIds(before) {
      if k != n {
        assert after[k] == before[k];
      }
    }
  }

  /** `UPDATE announcements SET is_active = ? WHERE id = ?` */
  function SetActive(id: Value, on: bool): Statement {
    UpdateRows(map["is_active" := Num(if on then 1 else 0)], IdEquals(id))
  }

  /** Setting one row's flag changes that row's `is_active` and nothing else. */
  lemma SetActiveSpec(t: TableState, id: Value, on: bool)
    requires Schema(t)
    ensures Apply(t, SetActive(id, on)).Some?
    ensures var r := Apply(t, SetActive(id, on)).value;
      && Schema(r) && r.rows.Keys == t.rows.Keys && r.nextId == t.nextId
      && forall k | k in t.rows ::
           r.rows[k] == if KeyOf(id) == Some(k) then t.rows[k]["is_active" := Num(if on then 1 else 0)] else t.rows[k]
  {
    SetColumnSpec(t, "is_active", Num(if on then 1 else 0), IdEquals(id));
  }

  /** Deactivating every row and then activating the one with the id. */
  lemma DeactivateThenSet(t: TableState, id: Value)
    requires Schema(t)
    ensures Apply(t, DeactivateAll()).Some?
    ensures var t1 := Apply(t, DeactivateAll()).value;
      Apply(t1, SetActive(id, true)).Some? &&
      var r := Apply(t1, SetActive(id, true)).value;
      && r.rows.Keys == t.rows.Keys
      && forall j | j in t.rows :: r.rows[j] == t.rows[j]["is_active" := Num(if KeyOf(id) == Some(j) then 1 else 0)]
  {
    DeactivateAllSpec(t);
    var t1 := Apply(t, DeactivateAll()).value;
    SetActiveSpec(t1, id, true);
    var r := Apply(t1, SetActive(id, true)).value;
    forall j | j in t.rows
      ensures r.rows[j] == t.rows[j]["is_active" := Num(if KeyOf(id) == Some(j) then 1 else 0)]
    {
      if KeyOf(id) == Some(j) {
        OverwriteTwice(t.rows[j], "is_active", Num(0), Num(1));
      } else {
        assert r.rows[j] == t1.rows[j];
      }
    }
  }

  lemma OverwriteTwice(row: Row, c: string, x: Value, y: Value)
    ensures row[c := x][c := y] == row[c := y]
  {
  }

  /** When only the row with the id has its flag set, it is the one active row, if it exists. */
  lemma FlagsOnlyThatRow(before: Rows, after: Rows, id: Value)
    requires after.Keys == before.Keys
    requires forall j | j in before :: after[j] == before[j]["is_active" := Num(if KeyOf(id) == Some(j) then 1 else 0)]
    ensures forall k | k in before && KeyOf(id) == Some(k) :: ActiveIds(after) == {k}
    ensures (forall k | k in before :: KeyOf(id) != Some(k)) ==> ActiveIds(after) == {}
  {
    forall j | j in after ensures Active(after[j]) <==> KeyOf(id) == Some(j) {
      assert after[j]["is_active"] == Num(if KeyOf(id) == Some(j) then 1 else 0);
    }
  }

  /** Clearing the flag of the row with the id only shrinks the set of active rows. */
  lemma ClearingShrinks(before: Rows, after: Rows, id: Value)
    requires after.Keys == before.Keys
    requires forall j | j in before :: after[j] == if KeyOf(id) == Some(j) then before[j]["is_active" := Num(0)] else before[j]
    ensures ActiveIds(after) <= ActiveIds(before)
  {
    forall j | j in ActiveIds(after) ensures j in ActiveIds(before) {
      assert KeyOf(id) != Some(j);
    }
  }
}
