/**
 * The one-off script that adds a `currency` column to `tours` (lib/migrate-currency.js).
 * `fault` is the index of the `execute` call that throws, if one does; a throw ends the
 * process with exit code 1.
 */
module MigrateCurrency {
  import opened Wrappers
  import opened Js
  import opened Sql

  /** The SQL text `"USD"`: an unknown double-quoted identifier, which SQLite reads as a string. */
  const USD: Value := Str("USD")

  /** The process's exit code and the table it leaves. */
  datatype Run = Run(exitCode: nat, table: TableState)

  /** The script's effect. Calls: 0 is `PRAGMA table_info`, 1 the `ALTER TABLE`, 2 the `UPDATE`. */
  function Migration(t: TableState, fault: Option<nat>): (r: Run)
    requires WellFormed(t)
    ensures WellFormed(r.table)
    ensures r.exitCode == 0 || r.exitCode == 1
  {
    if fault == Some(0) then Run(1, t)
    else if "currency" in t.columns then Run(0, t)
    else if fault == Some(1) then Run(1, t)
    else
      var t1 := WithColumn(t, "currency", USD).value;
      if fault == Some(2) then Run(1, t1)
      else Run(0, Updated(t1, map["currency" := USD], IsNull("currency")).value)
  }

  /** A table that already has the column is left alone. */
  lemma ExistingColumnChangesNothing(t: TableState, fault: Option<nat>)
    requires WellFormed(t) && "currency" in t.columns && fault != Some(0)
    ensures Migration(t, fault) == Run(0, t)
  {
  }

  /** The `UPDATE ... WHERE currency IS NULL` finds nothing: the new column's default already fills every row. */
  lemma BackfillFindsNothing(t: TableState)
    requires WellFormed(t) && "currency" !in t.columns
    ensures var t1 := WithColumn(t, "currency", USD).value;
      Updated(t1, map["currency" := USD], IsNull("currency")) == Some(t1)
  {
    var t1 := WithColumn(t, "currency", USD).value;
    forall k | k in t1.rows
      ensures !Selects(IsNull("currency"), k, t1.rows[k])
    {
      assert t1.rows[k]["currency"] == USD;
    }
    NothingSelected(t1.rows, map["currency" := USD], IsNull("currency"));
  }

  /**
   * A run that adds the column appends `currency` to the columns and sets it to "USD" in every
   * row, keeping every other value.
   */
  lemma AddsUsdEverywhere(t: TableState)
    requires WellFormed(t) && "currency" !in t.columns
    ensures var r := Migration(t, None);
      && r.exitCode == 0
      && r.table.columns == t.columns + ["currency"]
      && r.table.rows.Keys == t.rows.Keys
      && forall k | k in t.rows :: r.table.rows[k] == t.rows[k]["currency" := USD]
  {
    BackfillFindsNothing(t);
  }

  /** After a complete run every row has a currency, and a second run changes nothing. */
  lemma Idempotent(t: TableState)
    requires WellFormed(t)
    ensures var r := Migration(t, None);
      && r.exitCode == 0
      && "currency" in r.table.columns
      && Migration(r.table, None) == r
  {
    if "currency" !in t.columns {
      AddsUsdEverywhere(t);
    }
  }

  /** A failing call ends the run with exit code 1, before or after the column was added. */
  lemma FailureExitsWithOne(t: TableState, n: nat)
    requires WellFormed(t) && "currency" !in t.columns && n <= 2
    ensures var r := Migration(t, Some(n));
      && r.exitCode == 1
      && (n < 2 ==> r.table == t)
      && (n == 2 ==> r.table == WithColumn(t, "currency", USD).value)
  {
  }

  /** `migrateCurrencyColumn()` on the `tours` table. */
  method Migrate(db: Table, fault: Option<nat>) returns (exitCode: nat)
    requires db.Valid()
    modifies db
    ensures db.Valid()
    ensures Run(exitCode, db.State()) == Migration(old(db.State()), fault)
  {
    var info := db.TableInfo(fault == Some(0));
    if info.None? {
      return 1;
    }
    var currencyColumnExists := "currency" in info.value;
    if currencyColumnExists {
      return 0;
    }
    var ok := db.Execute(AddColumn("currency", USD), fault == Some(1));
    if !ok {
      return 1;
    }
    ok := db.Execute(UpdateRows(map["currency" := USD], IsNull("currency")), fault == Some(2));
    if !ok {
      return 1;
    }
    exitCode := 0;
  }
}
