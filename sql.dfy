/**
 * The part of the SQL engine the routes and migrations rely on: a table of rows keyed by an
 * AUTOINCREMENT integer id, and the statement forms the site executes against it.
 */
module Sql {
  import opened Wrappers
  import opened Strings
  import opened Js

  /** A row: column name to stored value. */
  type Row = map<string, Value>

  /** The rows of a table by id. */
  type Rows = map<int, Row>

  /** What `PRAGMA table_info`, the rows and the AUTOINCREMENT counter say about one table. */
  datatype TableState = TableState(columns: seq<string>, defaults: map<string, Value>, rows: Rows, nextId: int)

  /** Every row holds exactly the table's columns, its own id in `id`, and an id below the counter. */
  predicate WellFormed(t: TableState) {
    && "id" in t.columns
    && forall k | k in t.rows ::
         && k < t.nextId
         && t.rows[k].Keys == ColumnSet(t.columns)
         && t.rows[k]["id"] == Num(k)
  }

  function ColumnSet(columns: seq<string>): set<string> {
    set c | c in columns
  }

  predicate HasColumns(t: TableState, names: set<string>) {
    forall c | c in names :: c in t.columns
  }

  /**
   * The id a bound `?` argument compares equal to in an INTEGER PRIMARY KEY column: a number
   * as itself, a boolean as 1 or 0, a string of decimal digits by integer affinity; any other
   * value equals no id.
   */
  function KeyOf(v: Value): Option<int> {
    match v
    case Num(n) => Some(n)
    case Bool(b) => Some(if b then 1 else 0)
    case Str(s) => if s != [] && AllDigits(s) then Some(DigitsValue(s)) else None
    case _ => None
  }

  /** The rows a `WHERE` clause selects. */
  datatype Where = All | IdEquals(key: Value) | IsNull(column: string)

  predicate Selects(w: Where, k: int, row: Row) {
    match w
    case All => true
    case IdEquals(key) => KeyOf(key) == Some(k)
    case IsNull(c) => c in row && row[c] == Null
  }

  /** The statements the site executes. */
  datatype Statement =
    | InsertRow(values: Row)
    | UpdateRows(set_: Row, where_: Where)
    | DeleteRows(key: Value)
    | AddColumn(name: string, default: Value)

  /** The row an INSERT stores under `id`: the given values, else the column defaults, else NULL. */
  function NewRow(t: TableState, values: Row, id: int): Row {
    map c | c in t.columns :: if c == "id" then Num(id) else if c in values then values[c] else if c in t.defaults then t.defaults[c] else Null
  }

  /** `INSERT INTO t (...) VALUES (...)`; fails on a column the table does not have. */
  function Inserted(t: TableState, values: Row): (r: Option<TableState>)
    requires WellFormed(t)
    ensures r.Some? <==> HasColumns(t, values.Keys) && "id" !in values
    ensures r.Some? ==>
      && WellFormed(r.value)
      && t.nextId !in t.rows
      && r.value.rows.Keys == t.rows.Keys + {t.nextId}
      && r.value.columns == t.columns && r.value.nextId > t.nextId
      && (forall k | k in t.rows :: r.value.rows[k] == t.rows[k])
      && (forall c | c in values :: r.value.rows[t.nextId][c] == values[c])
  {
    if HasColumns(t, values.Keys) && "id" !in values then
      Some(t.(rows := t.rows[t.nextId := NewRow(t, values, t.nextId)], nextId := t.nextId + 1))
    else None
  }

  /** `UPDATE t SET ... WHERE ...`; fails on a column the table does not have. */
  function Updated(t: TableState, values: Row, w: Where): (r: Option<TableState>)
    requires WellFormed(t) && "id" !in values
    ensures r.Some? <==> HasColumns(t, values.Keys) && (w.IsNull? ==> w.column in t.columns)
    ensures r.Some? ==>
      && WellFormed(r.value)
      && r.value.columns == t.columns && r.value.nextId == t.nextId
      && r.value.rows.Keys == t.rows.Keys
      && forall k | k in t.rows ::
           r.value.rows[k] == if Selects(w, k, t.rows[k]) then t.rows[k] + values else t.rows[k]
  {
    if HasColumns(t, values.Keys) && (w.IsNull? ==> w.column in t.columns) then
      var rows := SetWhere(t.rows, values, w);
      UpdateKeepsShape(t, values, w);
      Some(t.(rows := rows))
    else None
  }

  function SetWhere(rows: Rows, values: Row, w: Where): (r: Rows)
    ensures r.Keys == rows.Keys
    ensures forall k | k in rows :: r[k] == if Selects(w, k, rows[k]) then rows[k] + values else rows[k]
  {
    map k | k in rows :: if Selects(w, k, rows[k]) then rows[k] + values else rows[k]
  }

  /** `UPDATE t SET c = v WHERE ...` on an existing column other than `id`: the selected rows get `v` in `c`. */
  lemma SetColumnSpec(t: TableState, c: string, v: Value, w: Where)
    requires WellFormed(t) && c in t.columns && c != "id" && (w.IsNull? ==> w.column in t.columns)
    ensures Apply(t, UpdateRows(map[c := v], w)).Some?
    ensures var r := Apply(t, UpdateRows(map[c := v], w)).value;
      && WellFormed(r) && r.columns == t.columns && r.rows.Keys == t.rows.Keys && r.nextId == t.nextId
      && forall k | k in t.rows :: r.rows[k] == if Selects(w, k, t.rows[k]) then t.rows[k][c := v] else t.rows[k]
  {
    var r := Updated(t, map[c := v], w).value;
    forall k | k in t.rows && Selects(w, k, t.rows[k])
      ensures r.rows[k] == t.rows[k][c := v]
    {
      MergeOne(t.rows[k], c, v);
    }
  }

  lemma MergeOne(row: Row, c: string, v: Value)
    ensures row + map[c := v] == row[c := v]
  {
  }

  /** An UPDATE whose WHERE selects no row changes nothing. */
  lemma NothingSelected(rows: Rows, values: Row, w: Where)
    requires forall k | k in rows :: !Selects(w, k, rows[k])
    ensures SetWhere(rows, values, w) == rows
  {
  }

  /** `WHERE id = k` selects exactly the row stored under `k`. */
  lemma SetWhereAt(rows: Rows, values: Row, k: int)
    requires k in rows
    ensures SetWhere(rows, values, IdEquals(Num(k))) == rows[k := rows[k] + values]
  {
    var r := SetWhere(rows, values, IdEquals(Num(k)));
    forall j | j in rows
      ensures r[j] == rows[k := rows[k] + values][j]
    {
      assert Selects(IdEquals(Num(k)), j, rows[j]) <==> j == k;
    }
  }

  /** Setting existing columns other than `id` keeps every row's shape. */
  lemma UpdateKeepsShape(t: TableState, values: Row, w: Where)
    requires WellFormed(t) && "id" !in values && HasColumns(t, values.Keys)
    ensures WellFormed(t.(rows := SetWhere(t.rows, values, w)))
  {
    var rows := SetWhere(t.rows, values, w);
    assert values.Keys <= ColumnSet(t.columns);
    forall k | k in rows ensures rows[k].Keys == ColumnSet(t.columns) && rows[k]["id"] == Num(k) {
      if Selects(w, k, t.rows[k]) {
        MergeKeepsShape(t.rows[k], values, ColumnSet(t.columns));
      }
    }
  }

  lemma MergeKeepsShape(row: Row, values: Row, cols: set<string>)
    requires row.Keys == cols && values.Keys <= cols && "id" in row && "id" !in values
    ensures (row + values).Keys == cols && (row + values)["id"] == row["id"]
  {
  }

  /** `DELETE FROM t WHERE id = ?` */
  function Deleted(t: TableState, key: Value): (r: TableState)
    requires WellFormed(t)
    ensures WellFormed(r) && r.columns == t.columns && r.nextId == t.nextId
    ensures forall k :: k in r.rows <==> k in t.rows && KeyOf(key) != Some(k)
    ensures forall k | k in r.rows :: r.rows[k] == t.rows[k]
  {
    t.(rows := map k | k in t.rows && KeyOf(key) != Some(k) :: t.rows[k])
  }

  /** `ALTER TABLE t ADD COLUMN name ... DEFAULT d`: existing rows read the default. */
  function WithColumn(t: TableState, name: string, d: Value): (r: Option<TableState>)
    requires WellFormed(t)
    ensures r.None? <==> name in t.columns
    ensures r.Some? ==>
      && WellFormed(r.value)
      && r.value.columns == t.columns + [name]
      && r.value.rows.Keys == t.rows.Keys && r.value.nextId == t.nextId
      && forall k | k in t.rows :: r.value.rows[k] == t.rows[k][name := d]
  {
    if name in t.columns then None
    else
      var rows := map k | k in t.rows :: t.rows[k][name := d];
      assert ColumnSet(t.columns + [name]) == ColumnSet(t.columns) + {name};
      assert forall k | k in rows :: rows[k].Keys == ColumnSet(t.columns + [name]);
      Some(t.(columns := t.columns + [name], defaults := t.defaults[name := d], rows := rows))
  }

  /** What executing a statement does; `None` is the error the engine raises. */
  function Apply(t: TableState, s: Statement): (r: Option<TableState>)
    requires WellFormed(t)
    requires s.UpdateRows? ==> "id" !in s.set_
    ensures r.Some? ==> WellFormed(r.value)
  {
    match s
    case InsertRow(values) => Inserted(t, values)
    case UpdateRows(values, w) => Updated(t, values, w)
    case DeleteRows(key) => Some(Deleted(t, key))
    case AddColumn(name, d) => WithColumn(t, name, d)
  }

  /** A row as `SELECT cols` returns it: only the selected columns. */
  function Project(row: Row, cols: seq<string>): (r: Row)
    ensures forall c | c in r :: c in cols && c in row && r[c] == row[c]
    ensures forall c | c in cols && c in row :: c in r
  {
    map c | c in row && c in cols :: row[c]
  }

  /** The id a selected row carries. */
  function IdOf(row: Row): int {
    if "id" in row && row["id"].Num? then row["id"].n else 0
  }

  /** `list` is a result set of `SELECT cols`: every row once, in some order, projected. */
  predicate Listed(list: seq<Row>, rows: Rows, cols: seq<string>) {
    && (forall i | 0 <= i < |list| :: IdOf(list[i]) in rows && list[i] == Project(rows[IdOf(list[i])], cols))
    && (forall i, j | 0 <= i < j < |list| :: IdOf(list[i]) != IdOf(list[j]))
    && (forall k | k in rows :: exists i | 0 <= i < |list| :: IdOf(list[i]) == k)
  }

  /** The ids a listing's first rows carry. */
  function Ids(list: seq<Row>): (r: set<int>)
    ensures forall i | 0 <= i < |list| :: IdOf(list[i]) in r
  {
    set i | 0 <= i < |list| :: IdOf(list[i])
  }

  /** Walking a listing in order meets each row once, as it stands in the table. */
  lemma ListedNext(list: seq<Row>, rows: Rows, cols: seq<string>, i: int)
    requires Listed(list, rows, cols) && 0 <= i < |list|
    ensures IdOf(list[i]) in rows && IdOf(list[i]) !in Ids(list[..i])
    ensures list[i] == Project(rows[IdOf(list[i])], cols)
    ensures Ids(list[..i + 1]) == Ids(list[..i]) + {IdOf(list[i])}
  {
    var before := list[..i];
    var after := list[..i + 1];
    assert forall j | 0 <= j < i :: before[j] == list[j];
    assert forall j | 0 <= j <= i :: after[j] == list[j];
    forall x | x in Ids(after)
      ensures x in Ids(before) + {IdOf(list[i])}
    {
      var j :| 0 <= j < |after| && IdOf(after[j]) == x;
      if j < i {
        assert IdOf(before[j]) == x;
      }
    }
  }

  /** A whole listing carries every id of the table. */
  lemma ListedIds(list: seq<Row>, rows: Rows, cols: seq<string>)
    requires Listed(list, rows, cols)
    ensures Ids(list) == rows.Keys
  {
    assert list[..|list|] == list;
    forall k | k in rows
      ensures k in Ids(list)
    {
      var i :| 0 <= i < |list| && IdOf(list[i]) == k;
    }
  }

  /** `list` lists, once each and projected, exactly the rows outside `remaining`. */
  predicate ListedExcept(list: seq<Row>, rows: Rows, cols: seq<string>, remaining: set<int>) {
    && remaining <= rows.Keys
    && (forall i | 0 <= i < |list| :: IdOf(list[i]) in rows && IdOf(list[i]) !in remaining)
    && (forall i | 0 <= i < |list| :: list[i] == Project(rows[IdOf(list[i])], cols))
    && (forall i, j | 0 <= i < j < |list| :: IdOf(list[i]) != IdOf(list[j]))
    && (forall k | k in rows && k !in remaining :: exists i | 0 <= i < |list| :: IdOf(list[i]) == k)
  }

  /** Listing one more row keeps the partial listing. */
  lemma ListingStep(list: seq<Row>, rows: Rows, cols: seq<string>, remaining: set<int>, k: int)
    requires ListedExcept(list, rows, cols, remaining) && k in remaining
    requires "id" in cols && "id" in rows[k] && rows[k]["id"] == Num(k)
    ensures ListedExcept(list + [Project(rows[k], cols)], rows, cols, remaining - {k})
  {
    var row := Project(rows[k], cols);
    assert IdOf(row) == k;
    var next := list + [row];
    forall k' | k' in rows && k' !in remaining - {k}
      ensures exists i | 0 <= i < |next| :: IdOf(next[i]) == k'
    {
      if k' == k {
        assert IdOf(next[|list|]) == k';
      } else {
        var i :| 0 <= i < |list| && IdOf(list[i]) == k';
        assert IdOf(next[i]) == k';
      }
    }
  }

  /** Some id of a non-empty set, chosen as the engine chooses its scan order. */
  method PickKey(s: set<int>) returns (k: int)
    requires s != {}
    ensures k in s
  {
    if forall x :: x !in s {
      EmptyIfNoMember(s);
      assert false;
    }
    k :| k in s;
  }

  lemma EmptyIfNoMember(s: set<int>)
    requires forall x :: x !in s
    ensures s == {}
  {
    assert forall x :: x in s <==> x in {};
  }

  /** A database table behind `turso.execute`. */
  class Table {
    var columns: seq<string>
    var defaults: map<string, Value>
    var rows: Rows
    var nextId: int

    function State(): TableState
      reads this
    {
      TableState(columns, defaults, rows, nextId)
    }

    ghost predicate Valid()
      reads this
    {
      WellFormed(State())
    }

    /** `CREATE TABLE` with the given columns and defaults, empty. */
    constructor (columns: seq<string>, defaults: map<string, Value>)
      requires "id" in columns
      ensures Valid() && State() == TableState(columns, defaults, map[], 1)
    {
      this.columns := columns;
      this.defaults := defaults;
      rows := map[];
      nextId := 1;
    }

    /** `PRAGMA table_info(t)`: the column names, unless the call fails. */
    method TableInfo(fails: bool) returns (names: Option<seq<string>>)
      ensures names == if fails then None else Some(columns)
    {
      if fails {
        return None;
      }
      names := Some(columns);
    }

    /** `SELECT cols FROM t`: every row once, in an order the engine picks, unless the call fails. */
    method Select(cols: seq<string>, fails: bool) returns (list: Option<seq<Row>>)
      requires Valid() && "id" in cols
      ensures fails <==> list.None?
      ensures list.Some? ==> Listed(list.value, rows, cols)
    {
      if fails {
        return None;
      }
      var result: seq<Row> := [];
      var remaining := rows.Keys;
      while remaining != {}
        invariant ListedExcept(result, rows, cols, remaining)
        decreases remaining
      {
        var k := PickKey(remaining);
        ListingStep(result, rows, cols, remaining, k);
        result := result + [Project(rows[k], cols)];
        remaining := remaining - {k};
      }
      list := Some(result);
    }

    /**
     * `await turso.execute(s)`. `fails` stands for a failure outside the engine (the network,
     * the service); either failure rejects the call and leaves the table as it was.
     */
    method Execute(s: Statement, fails: bool) returns (ok: bool)
      requires Valid()
      requires s.UpdateRows? ==> "id" !in s.set_
      modifies this
      ensures Valid()
      ensures ok == (!fails && Apply(old(State()), s).Some?)
      ensures State() == if ok then Apply(old(State()), s).value else old(State())
    {
      var r := Apply(State(), s);
      if fails || r.None? {
        return false;
      }
      columns, defaults, rows, nextId := r.value.columns, r.value.defaults, r.value.rows, r.value.nextId;
      ok := true;
    }
  }
}
