/**
 * The one-off script that adds the per-language columns to `tours` and `announcements` and
 * copies the existing texts into the English ones (lib/migrate-multilingual.js). `fault` is
 * the index of the `execute` call that throws, if one does; a throw ends the process with
 * exit code 1, leaving whatever the earlier calls did.
 */
module MigrateMultilingual {
  import opened Wrappers
  import opened Strings
  import opened Js
  import opened Sql

  // ---------------------------------------------------------------------------
  // the schema step

  const TourColumns: seq<string> := [
    "title_en", "title_th", "title_zh",
    "description_en", "description_th", "description_zh",
    "location_en", "location_th", "location_zh"
  ]

  const AnnouncementColumns: seq<string> := ["message_en", "message_th", "message_zh"]

  /** `column.split(' ')[0]` of a definition `name TEXT` is its name. */
  lemma ColumnNameOf(name: string)
    requires ' ' !in name
    ensures BeforeFirst(name + " TEXT", ' ') == name
  {
    BeforeFirstOf(name, ' ', " TEXT");
  }

  predicate Distinct(s: seq<string>) {
    forall i, j | 0 <= i < j < |s| :: s[i] != s[j]
  }

  /** The names of `names` that are not among `columns`, in order. */
  function Missing(names: seq<string>, columns: seq<string>): seq<string> {
    if names == [] then []
    else
      var last := names[|names| - 1];
      assert names == names[..|names| - 1] + [last];
      Missing(names[..|names| - 1], columns) + (if last in columns then [] else [last])
  }

  lemma {:induction false} MissingMembers(names: seq<string>, columns: seq<string>)
    ensures forall c :: c in Missing(names, columns) <==> c in names && c !in columns
  {
    if names != [] {
      var prefix := names[..|names| - 1];
      MissingMembers(prefix, columns);
      assert names == prefix + [names[|names| - 1]];
    }
  }

  /** NULL in each of `names`. */
  function Nulls(names: seq<string>): (r: Row)
    ensures r.Keys == ColumnSet(names)
  {
    map c | c in names :: Null
  }

  /** `ALTER TABLE ... ADD COLUMN c TEXT` when `c` is not a column yet; a TEXT column without default reads NULL. */
  function AddIfAbsent(t: TableState, c: string): (r: TableState)
    requires WellFormed(t)
    ensures WellFormed(r)
  {
    if c in t.columns then t else WithColumn(t, c, Null).value
  }

  /** The schema loop's effect: each listed column that is missing is added, in order. */
  function WithAll(t: TableState, names: seq<string>): (r: TableState)
    requires WellFormed(t)
    ensures WellFormed(r)
  {
    if names == [] then t
    else AddIfAbsent(WithAll(t, names[..|names| - 1]), names[|names| - 1])
  }

  /** Only the missing columns are appended, in order; the rows and the counter stay. */
  lemma {:induction false} WithAllShape(t: TableState, names: seq<string>)
    requires WellFormed(t) && Distinct(names)
    ensures var r := WithAll(t, names);
      && r.columns == t.columns + Missing(names, t.columns)
      && r.rows.Keys == t.rows.Keys && r.nextId == t.nextId
  {
    if names != [] {
      var prefix := names[..|names| - 1];
      var c := names[|names| - 1];
      assert Distinct(prefix) && c !in prefix by {
        assert forall j | 0 <= j < |prefix| :: prefix[j] == names[j];
      }
      WithAllShape(t, prefix);
      ShapeStep(t, WithAll(t, prefix), prefix, c);
      assert names == prefix + [c];
    }
  }

  /** One more name: appended when it is not a column of the original table. */
  lemma ShapeStep(t: TableState, p: TableState, prefix: seq<string>, c: string)
    requires WellFormed(t) && WellFormed(p) && c !in prefix
    requires p.columns == t.columns + Missing(prefix, t.columns)
    requires p.rows.Keys == t.rows.Keys && p.nextId == t.nextId
    ensures var r := AddIfAbsent(p, c);
      && r.columns == t.columns + Missing(prefix + [c], t.columns)
      && r.rows.Keys == t.rows.Keys && r.nextId == t.nextId
      && forall k | k in p.rows :: r.rows[k] == if c in t.columns then p.rows[k] else p.rows[k][c := Null]
  {
    var m := Missing(prefix, t.columns);
    MissingSnoc(prefix, c, t.columns);
    MissingMembers(prefix, t.columns);
    assert c in p.columns <==> c in t.columns;
    if c in t.columns {
      assert AddIfAbsent(p, c) == p;
      assert prefix + [c] != [] && Missing(prefix + [c], t.columns) == m;
    } else {
      var r := WithColumn(p, c, Null).value;
      assert AddIfAbsent(p, c) == r;
      assert r.columns == (t.columns + m) + [c];
      assert t.columns + (m + [c]) == (t.columns + m) + [c];
    }
  }

  /** Each row gains NULL in the appended columns and keeps every value it had. */
  lemma {:induction false} WithAllRow(t: TableState, names: seq<string>, k: int)
    requires WellFormed(t) && Distinct(names) && k in t.rows
    ensures k in WithAll(t, names).rows
    ensures WithAll(t, names).rows[k] == t.rows[k] + Nulls(Missing(names, t.columns))
  {
    WithAllShape(t, names);
    if names == [] {
      assert t.rows[k] + Nulls([]) == t.rows[k];
    } else {
      var prefix := names[..|names| - 1];
      var c := names[|names| - 1];
      assert Distinct(prefix) && c !in prefix by {
        assert forall j | 0 <= j < |prefix| :: prefix[j] == names[j];
      }
      WithAllShape(t, prefix);
      WithAllRow(t, prefix, k);
      ShapeStep(t, WithAll(t, prefix), prefix, c);
      assert names == prefix + [c];
      RowStep(t.rows[k], prefix, c, t.columns);
    }
  }

  /** The row-level counterpart of `ShapeStep`. */
  lemma RowStep(row: Row, prefix: seq<string>, c: string, columns: seq<string>)
    ensures var before := row + Nulls(Missing(prefix, columns));
      (if c in columns then before else before[c := Null]) == row + Nulls(Missing(prefix + [c], columns))
  {
    var m := Missing(prefix, columns);
    MissingSnoc(prefix, c, columns);
    if c !in columns {
      calc {
        row + Nulls(Missing(prefix + [c], columns));
        row + Nulls(m + [c]);
        { NullsSnoc(m, c); }
        row + Nulls(m)[c := Null];
        { MergeSnoc(row, Nulls(m), c, Null); }
        (row + Nulls(m))[c := Null];
      }
    }
  }

  lemma MissingSnoc(prefix: seq<string>, c: string, columns: seq<string>)
    ensures Missing(prefix + [c], columns) == Missing(prefix, columns) + (if c in columns then [] else [c])
  {
    assert (prefix + [c])[..|prefix|] == prefix;
  }

  lemma NullsSnoc(m: seq<string>, c: string)
    ensures Nulls(m + [c]) == Nulls(m)[c := Null]
  {
    assert ColumnSet(m + [c]) == ColumnSet(m) + {c};
  }

  lemma MergeSnoc(row: Row, extra: Row, c: string, v: Value)
    ensures (row + extra)[c := v] == row + extra[c := v]
  {
  }

  /** A second schema pass over the same list adds nothing. */
  lemma WithAllAgain(t: TableState, names: seq<string>)
    requires WellFormed(t) && Distinct(names)
    ensures WithAll(WithAll(t, names), names) == WithAll(t, names)
  {
    WithAllShape(t, names);
    MissingMembers(names, t.columns);
    var r := WithAll(t, names);
    assert forall c | c in names :: c in r.columns;
    WithAllPresent(r, names);
  }

  /** The schema loop changes nothing when every listed column exists. */
  lemma {:induction false} WithAllPresent(t: TableState, names: seq<string>)
    requires WellFormed(t) && forall c | c in names :: c in t.columns
    ensures WithAll(t, names) == t
  {
    if names != [] {
      WithAllPresent(t, names[..|names| - 1]);
    }
  }

  // ---------------------------------------------------------------------------
  // the copy step

  /**
   * One copy step: the rows whose `source` is truthy and whose `target` (as selected) is falsy
   * get each key of `copies` set from the column it names.
   */
  datatype Plan = Plan(source: string, target: string, copies: map<string, string>)

  const TourPlan := Plan("title", "title_en",
    map["title_en" := "title", "description_en" := "description", "location_en" := "location"])

  const AnnouncementPlan := Plan("message", "message_en", map["message_en" := "message"])

  /** `SELECT id, title, description, location FROM tours`, as written. */
  const TourSelect: seq<string> := ["id", "title", "description", "location"]

  /** `SELECT id, message FROM announcements`, as written. */
  const AnnouncementSelect: seq<string> := ["id", "message"]

  /** `tour.title && !tour.title_en` on a selected row. */
  predicate Guard(plan: Plan, selected: Row) {
    Truthy(Field(selected, plan.source)) && !Truthy(Field(selected, plan.target))
  }

  /** The UPDATE's SET list from a selected row. */
  function Values(plan: Plan, selected: Row): (r: Row)
    ensures r.Keys == plan.copies.Keys
  {
    map c | c in plan.copies :: Field(selected, plan.copies[c])
  }

  /** A row after the copy step, for a SELECT of `cols`. */
  function Migrated(row: Row, plan: Plan, cols: seq<string>): Row {
    var p := Project(row, cols);
    if Guard(plan, p) then row + Values(plan, p) else row
  }

  /** The plan writes existing columns other than `id`. */
  predicate Fits(t: TableState, plan: Plan) {
    "id" !in plan.copies && HasColumns(t, plan.copies.Keys)
  }

  /** The table after the copy step has handled the rows in `done`. */
  function PartlyCopied(t: TableState, plan: Plan, cols: seq<string>, done: set<int>): (r: TableState)
    requires WellFormed(t) && Fits(t, plan)
    ensures WellFormed(r) && r.columns == t.columns && r.nextId == t.nextId && r.rows.Keys == t.rows.Keys
    ensures forall k | k in t.rows :: r.rows[k] == if k in done then Migrated(t.rows[k], plan, cols) else t.rows[k]
  {
    var rows := map k | k in t.rows :: if k in done then Migrated(t.rows[k], plan, cols) else t.rows[k];
    assert plan.copies.Keys <= ColumnSet(t.columns);
    forall k | k in rows
      ensures rows[k].Keys == ColumnSet(t.columns) && rows[k]["id"] == Num(k)
    {
      var p := Project(t.rows[k], cols);
      if k in done && Guard(plan, p) {
        MergeKeepsShape(t.rows[k], Values(plan, p), ColumnSet(t.columns));
      }
    }
    t.(rows := rows)
  }

  /** The copy loop's effect, once every row is handled. */
  function Copied(t: TableState, plan: Plan, cols: seq<string>): (r: TableState)
    requires WellFormed(t) && Fits(t, plan)
    ensures WellFormed(r) && r.columns == t.columns && r.nextId == t.nextId && r.rows.Keys == t.rows.Keys
    ensures forall k | k in t.rows :: r.rows[k] == Migrated(t.rows[k], plan, cols)
  {
    PartlyCopied(t, plan, cols, t.rows.Keys)
  }

  /** Before the loop no row is handled. */
  lemma NoneCopied(t: TableState, plan: Plan, cols: seq<string>)
    requires WellFormed(t) && Fits(t, plan)
    ensures PartlyCopied(t, plan, cols, {}) == t
  {
    assert PartlyCopied(t, plan, cols, {}).rows == t.rows;
  }

  /** Handling one more row whose guard holds is its UPDATE. */
  lemma CopyStep(t: TableState, plan: Plan, cols: seq<string>, done: set<int>, k: int)
    requires WellFormed(t) && Fits(t, plan) && k in t.rows && k !in done
    requires Guard(plan, Project(t.rows[k], cols))
    ensures Apply(PartlyCopied(t, plan, cols, done), UpdateRows(Values(plan, Project(t.rows[k], cols)), IdEquals(Num(k)))) ==
            Some(PartlyCopied(t, plan, cols, done + {k}))
  {
    var v := Values(plan, Project(t.rows[k], cols));
    var before := PartlyCopied(t, plan, cols, done);
    OneMoreCopied(t, plan, cols, done, k);
    assert HasColumns(before, v.Keys);
    UpdatedAt(before, v, k);
  }

  /** Handling one more row replaces just that row by its migrated form. */
  lemma OneMoreCopied(t: TableState, plan: Plan, cols: seq<string>, done: set<int>, k: int)
    requires WellFormed(t) && Fits(t, plan) && k in t.rows && k !in done
    ensures var before := PartlyCopied(t, plan, cols, done);
      && before.rows[k] == t.rows[k]
      && PartlyCopied(t, plan, cols, done + {k}) == before.(rows := before.rows[k := Migrated(t.rows[k], plan, cols)])
  {
    var before := PartlyCopied(t, plan, cols, done);
    var after := PartlyCopied(t, plan, cols, done + {k});
    assert after.rows == before.rows[k := Migrated(t.rows[k], plan, cols)];
  }

  /** `UPDATE ... WHERE id = k` on an existing row: only that row gets the values. */
  lemma UpdatedAt(s: TableState, v: Row, k: int)
    requires WellFormed(s) && "id" !in v && HasColumns(s, v.Keys) && k in s.rows
    ensures Apply(s, UpdateRows(v, IdEquals(Num(k)))) == Some(s.(rows := s.rows[k := s.rows[k] + v]))
  {
    SetWhereAt(s.rows, v, k);
  }

  /** Handling one more row whose guard fails changes nothing. */
  lemma SkipStep(t: TableState, plan: Plan, cols: seq<string>, done: set<int>, k: int)
    requires WellFormed(t) && Fits(t, plan) && k in t.rows && k !in done
    requires !Guard(plan, Project(t.rows[k], cols))
    ensures PartlyCopied(t, plan, cols, done) == PartlyCopied(t, plan, cols, done + {k})
  {
    var before := PartlyCopied(t, plan, cols, done);
    var after := PartlyCopied(t, plan, cols, done + {k});
    assert before.rows == after.rows;
  }

  // ---------------------------------------------------------------------------
  // properties of the copy step

  /** As written, the SELECT has no `title_en`, so the guard only asks for a title. */
  lemma GuardIgnoresEnglishTitle(row: Row)
    ensures Guard(TourPlan, Project(row, TourSelect)) <==> Truthy(Field(row, "title"))
  {
    assert "title_en" !in Project(row, TourSelect);
    if "title" in row {
      assert Field(Project(row, TourSelect), "title") == row["title"];
    }
  }

  /** The same holds for announcements: `message_en` is not selected. */
  lemma GuardIgnoresEnglishMessage(row: Row)
    ensures Guard(AnnouncementPlan, Project(row, AnnouncementSelect)) <==> Truthy(Field(row, "message"))
  {
    assert "message_en" !in Project(row, AnnouncementSelect);
    if "message" in row {
      assert Field(Project(row, AnnouncementSelect), "message") == row["message"];
    }
  }

  /** A tour with a title gets the three English columns copied from the base ones, whatever they held. */
  lemma CopiesEveryTitledTour(row: Row)
    requires Truthy(Field(row, "title"))
    ensures var r := Migrated(row, TourPlan, TourSelect);
      && r["title_en"] == Field(row, "title")
      && r["description_en"] == Field(row, "description")
      && r["location_en"] == Field(row, "location")
      && forall c | c in row && c !in TourPlan.copies :: r[c] == row[c]
  {
    GuardIgnoresEnglishTitle(row);
    var p := Project(row, TourSelect);
    assert Field(p, "description") == Field(row, "description");
    assert Field(p, "location") == Field(row, "location");
  }

  /** A tour without a title is left alone. */
  lemma SkipsUntitledTour(row: Row, cols: seq<string>)
    requires !Truthy(Field(row, "title")) && "title" in cols
    ensures Migrated(row, TourPlan, cols) == row
  {
    assert Field(Project(row, cols), "title") == Field(row, "title");
  }

  /** An announcement with a message gets `message_en` copied from it. */
  lemma CopiesEveryMessage(row: Row)
    requires Truthy(Field(row, "message"))
    ensures var r := Migrated(row, AnnouncementPlan, AnnouncementSelect);
      r["message_en"] == Field(row, "message") && forall c | c in row && c != "message_en" :: r[c] == row[c]
  {
    GuardIgnoresEnglishMessage(row);
  }

  /** As written, a re-run overwrites an English title that differs from the base title. */
  lemma RerunOverwritesEnglishTitle(title: string, english: string)
    requires title != "" && english != "" && title != english
    ensures var row := map["id" := Num(1), "title" := Str(title), "title_en" := Str(english)];
      Migrated(row, TourPlan, TourSelect)["title_en"] == Str(title) != row["title_en"]
  {
    var row := map["id" := Num(1), "title" := Str(title), "title_en" := Str(english)];
    CopiesEveryTitledTour(row);
  }

  /** The corrected SELECT also fetches the English column the guard reads. */
  const TourSelectFixed: seq<string> := TourSelect + ["title_en"]

  const AnnouncementSelectFixed: seq<string> := AnnouncementSelect + ["message_en"]

  /**
   * With the corrected SELECT a tour that already has an English title is left alone, and one
   * with a title but no English title gets the copy.
   */
  lemma FixedGuardKeepsEnglishTitle(row: Row)
    ensures Truthy(Field(row, "title_en")) ==> Migrated(row, TourPlan, TourSelectFixed) == row
    ensures Truthy(Field(row, "title")) && !Truthy(Field(row, "title_en")) ==>
      Migrated(row, TourPlan, TourSelectFixed) == row + Values(TourPlan, row)
  {
    var p := Project(row, TourSelectFixed);
    assert Field(p, "title_en") == Field(row, "title_en");
    assert Field(p, "title") == Field(row, "title");
    assert Values(TourPlan, p) == Values(TourPlan, row) by {
      assert Field(p, "description") == Field(row, "description");
      assert Field(p, "location") == Field(row, "location");
    }
  }

  /** With the corrected SELECT an announcement that already has `message_en` is left alone. */
  lemma FixedGuardKeepsEnglishMessage(row: Row)
    ensures Truthy(Field(row, "message_en")) ==> Migrated(row, AnnouncementPlan, AnnouncementSelectFixed) == row
    ensures Truthy(Field(row, "message")) && !Truthy(Field(row, "message_en")) ==>
      Migrated(row, AnnouncementPlan, AnnouncementSelectFixed) == row["message_en" := row["message"]]
  {
    var p := Project(row, AnnouncementSelectFixed);
    assert Field(p, "message_en") == Field(row, "message_en");
    assert Field(p, "message") == Field(row, "message");
  }

  // ---------------------------------------------------------------------------
  // the script

  /** The loop over `columnsToAdd`; `existing` is the PRAGMA's column list. */
  method AddMissingColumns(db: Table, names: seq<string>, existing: seq<string>, fault: Option<nat>, call0: nat)
    returns (ok: bool, call: nat)
    requires db.Valid() && Distinct(names) && existing == db.columns
    modifies db
    ensures db.Valid() && call >= call0
    ensures fault.None? ==> ok
    ensures ok ==> db.State() == WithAll(old(db.State()), names)
    ensures !ok ==> exists i | 0 <= i <= |names| :: db.State() == WithAll(old(db.State()), names[..i])
  {
    ghost var t := db.State();
    call := call0;
    ok := true;
    for i := 0 to |names|
      invariant db.Valid() && call >= call0
      invariant db.State() == WithAll(t, names[..i])
      invariant forall j | i <= j < |names| :: names[j] in existing <==> names[j] in db.columns
    {
      assert names[..i + 1] == names[..i] + [names[i]];
      assert Distinct(names[..i]);
      if names[i] !in existing {
        ok := db.Execute(AddColumn(names[i], Null), fault == Some(call));
        call := call + 1;
        if !ok {
          return;
        }
      }
      assert names[..i + 1][..i] == names[..i];
      forall j | i + 1 <= j < |names|
        ensures names[j] in existing <==> names[j] in db.columns
      {
        assert names[j] != names[i];
      }
    }
    assert names[..|names|] == names;
  }

  /** The loop over the selected rows. */
  method CopyRows(db: Table, plan: Plan, cols: seq<string>, fault: Option<nat>, call0: nat)
    returns (ok: bool, call: nat)
    requires db.Valid() && Fits(db.State(), plan) && "id" in cols
    modifies db
    ensures db.Valid() && call >= call0
    ensures fault.None? ==> ok
    ensures ok ==> db.State() == Copied(old(db.State()), plan, cols)
    ensures !ok ==> exists done | done <= old(db.State()).rows.Keys :: db.State() == PartlyCopied(old(db.State()), plan, cols, done)
  {
    ghost var t := db.State();
    call := call0;
    var list := db.Select(cols, fault == Some(call));
    call := call + 1;
    NoneCopied(t, plan, cols);
    if list.None? {
      return false, call;
    }
    ghost var done: set<int> := {};
    assert list.value[..0] == [];
    for i := 0 to |list.value|
      invariant db.Valid() && call >= call0
      invariant done == Ids(list.value[..i]) && done <= t.rows.Keys
      invariant db.State() == PartlyCopied(t, plan, cols, done)
    {
      var tour := list.value[i];
      ghost var k := IdOf(tour);
      ListedNext(list.value, t.rows, cols, i);
      if Guard(plan, tour) {
        assert tour["id"] == Num(k);
        CopyStep(t, plan, cols, done, k);
        ok := db.Execute(UpdateRows(Values(plan, tour), IdEquals(tour["id"])), fault == Some(call));
        call := call + 1;
        if !ok {
          return;
        }
      } else {
        SkipStep(t, plan, cols, done, k);
      }
      done := done + {k};
    }
    ListedIds(list.value, t.rows, cols);
    assert list.value[..|list.value|] == list.value;
    ok := true;
  }

  /** One table after a complete run: the schema loop over `names`, then the copy step. */
  function MigratedTable(t: TableState, names: seq<string>, plan: Plan, cols: seq<string>): (r: TableState)
    requires WellFormed(t) && Distinct(names) && "id" !in plan.copies
    requires forall c | c in plan.copies :: c in names
    ensures WellFormed(r) && r.rows.Keys == t.rows.Keys
    ensures forall c | c in names :: c in r.columns
  {
    SchemaFits(t, names, plan);
    Copied(WithAll(t, names), plan, cols)
  }

  /**
   * What a run that throws part-way leaves of one table: the schema loop stopped after some
   * prefix of `names`, or the schema loop done and the copy loop stopped after some rows.
   */
  predicate PartlyMigrated(t: TableState, names: seq<string>, plan: Plan, cols: seq<string>, s: TableState)
    requires WellFormed(t)
  {
    || (exists i | 0 <= i <= |names| :: s == WithAll(t, names[..i]))
    || (&& Distinct(names) && "id" !in plan.copies && (forall c | c in plan.copies :: c in names)
        && (SchemaFits(t, names, plan);
            exists done | done <= t.rows.Keys :: s == PartlyCopied(WithAll(t, names), plan, cols, done)))
  }

  /** The `tours` table after a complete run with SELECT list `cols`. */
  function ToursAfter(t: TableState, cols: seq<string>): (r: TableState)
    requires WellFormed(t)
  {
    assert Distinct(TourColumns);
    MigratedTable(t, TourColumns, TourPlan, cols)
  }

  /** The `announcements` table after a complete run with SELECT list `cols`. */
  function AnnouncementsAfter(t: TableState, cols: seq<string>): (r: TableState)
    requires WellFormed(t)
  {
    assert Distinct(AnnouncementColumns);
    MigratedTable(t, AnnouncementColumns, AnnouncementPlan, cols)
  }

  /** A second run adds no column: the schema half of the script is idempotent, as written or corrected. */
  lemma RerunAddsNoColumn(t: TableState, names: seq<string>, plan: Plan, cols: seq<string>)
    requires WellFormed(t) && Distinct(names) && "id" !in plan.copies
    requires forall c | c in plan.copies :: c in names
    ensures var r := MigratedTable(t, names, plan, cols);
      MigratedTable(r, names, plan, cols).columns == r.columns
  {
    var r := MigratedTable(t, names, plan, cols);
    WithAllPresent(r, names);
  }

  /** The plans copy the base column into the English one their guard reads. */
  predicate CopiesSourceToTarget(plan: Plan, cols: seq<string>) {
    && plan.target in plan.copies && plan.copies[plan.target] == plan.source
    && plan.source in cols && plan.target in cols
  }

  /** With the guard's column selected, handling a row twice is handling it once. */
  lemma MigratedTwice(row: Row, plan: Plan, cols: seq<string>)
    requires CopiesSourceToTarget(plan, cols)
    ensures Migrated(Migrated(row, plan, cols), plan, cols) == Migrated(row, plan, cols)
  {
    var p := Project(row, cols);
    if Guard(plan, p) {
      var r1 := row + Values(plan, p);
      assert Field(p, plan.source) == Field(row, plan.source);
      assert r1[plan.target] == Field(row, plan.source);
      assert Field(Project(r1, cols), plan.target) == r1[plan.target];
    }
  }

  /** With the corrected SELECT lists a second complete run changes nothing at all. */
  lemma {:induction false} FixedRunIdempotent(t: TableState, names: seq<string>, plan: Plan, cols: seq<string>)
    requires WellFormed(t) && Distinct(names) && "id" !in plan.copies
    requires forall c | c in plan.copies :: c in names
    requires CopiesSourceToTarget(plan, cols)
    ensures var r := MigratedTable(t, names, plan, cols);
      MigratedTable(r, names, plan, cols) == r
  {
    SchemaFits(t, names, plan);
    var w := WithAll(t, names);
    var r := MigratedTable(t, names, plan, cols);
    WithAllPresent(r, names);
    var r2 := MigratedTable(r, names, plan, cols);
    forall k | k in r.rows
      ensures r2.rows[k] == r.rows[k]
    {
      MigratedTwice(w.rows[k], plan, cols);
    }
    assert r2.rows == r.rows;
  }

  /** Both corrected SELECT lists meet the condition. */
  lemma FixedSelectsCopyBack()
    ensures CopiesSourceToTarget(TourPlan, TourSelectFixed)
    ensures CopiesSourceToTarget(AnnouncementPlan, AnnouncementSelectFixed)
    ensures !CopiesSourceToTarget(TourPlan, TourSelect) && !CopiesSourceToTarget(AnnouncementPlan, AnnouncementSelect)
  {
    assert TourSelectFixed[4] == "title_en";
    assert AnnouncementSelectFixed[2] == "message_en";
  }

  /** After the schema loop every listed column exists, so a plan writing listed columns fits. */
  lemma SchemaFits(t: TableState, names: seq<string>, plan: Plan)
    requires WellFormed(t) && Distinct(names) && "id" !in plan.copies
    requires forall c | c in plan.copies :: c in names
    ensures Fits(WithAll(t, names), plan)
    ensures forall c | c in names :: c in WithAll(t, names).columns
    ensures WithAll(t, names).rows.Keys == t.rows.Keys
  {
    WithAllShape(t, names);
    MissingMembers(names, t.columns);
  }

  /** `migrateToMultilingual()`. Calls in order: PRAGMA, ALTERs, SELECT, UPDATEs on `tours`, then the same on `announcements`. */
  method Migrate(tours: Table, announcements: Table, fault: Option<nat>) returns (exitCode: nat)
    requires tours.Valid() && announcements.Valid() && tours != announcements
    modifies tours, announcements
    ensures tours.Valid() && announcements.Valid()
    ensures exitCode == 0 || exitCode == 1
    ensures fault.None? ==> exitCode == 0
    ensures exitCode == 0 ==>
      && tours.State() == ToursAfter(old(tours.State()), TourSelect)
      && announcements.State() == AnnouncementsAfter(old(announcements.State()), AnnouncementSelect)
    ensures exitCode == 1 ==>
      && fault.Some?
      && (|| (&& PartlyMigrated(old(tours.State()), TourColumns, TourPlan, TourSelect, tours.State())
              && announcements.State() == old(announcements.State()))
          || (&& tours.State() == ToursAfter(old(tours.State()), TourSelect)
              && PartlyMigrated(old(announcements.State()), AnnouncementColumns, AnnouncementPlan, AnnouncementSelect,
                                announcements.State())))
  {
    assert Distinct(TourColumns) && Distinct(AnnouncementColumns);
    var ok: bool;
    var call: nat;
    ok, call := MigrateTable(tours, TourColumns, TourPlan, TourSelect, fault, 0);
    if !ok {
      return 1;
    }
    ok, call := MigrateTable(announcements, AnnouncementColumns, AnnouncementPlan, AnnouncementSelect, fault, call);
    if !ok {
      return 1;
    }
    exitCode := 0;
  }

  /** One table's half of the script: PRAGMA, the schema loop, the SELECT and the copy loop. */
  method MigrateTable(db: Table, names: seq<string>, plan: Plan, cols: seq<string>, fault: Option<nat>, call0: nat)
    returns (ok: bool, call: nat)
    requires db.Valid() && Distinct(names) && "id" !in plan.copies && "id" in cols
    requires forall c | c in plan.copies :: c in names
    modifies db
    ensures db.Valid() && call >= call0
    ensures fault.None? ==> ok
    ensures ok ==> db.State() == MigratedTable(old(db.State()), names, plan, cols)
    ensures !ok ==> PartlyMigrated(old(db.State()), names, plan, cols, db.State())
  {
    ghost var t := db.State();
    call := call0;
    var info := db.TableInfo(fault == Some(call));
    call := call + 1;
    if info.None? {
      assert WithAll(t, names[..0]) == t;
      return false, call;
    }
    ok, call := AddMissingColumns(db, names, info.value, fault, call);
    if !ok {
      return;
    }
    SchemaFits(t, names, plan);
    ok, call := CopyRows(db, plan, cols, fault, call);
  }
}
