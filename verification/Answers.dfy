/**
 What the statements of src/query_executor_engine.cpp answer and leave behind, said of columns,
 rows and values only: which columns SELECT takes, which rows INSERT stores and when it
 fails, what the schema says, and the numbers and errors that are reported.
 */
module Answers {
  import opened Options
  import opened Ordering
  import opened Queries
  import opened Updates
  import opened Runs

  // ----- The schema -----

  /** The name sets of a schema are those of its column definitions. */
  lemma SchemaMeans(columns: seq<ColumnDef>, n: string)
    ensures SchemaOf(columns).columns == columns
    ensures n in SchemaOf(columns).names <==> exists c :: c in columns && c.name == n
    ensures n in SchemaOf(columns).unique <==> exists c :: c in columns && c.name == n && c.unique
    ensures n in SchemaOf(columns).notNull <==> exists c :: c in columns && c.name == n && c.notNull
  {
  }

  lemma {:induction false} NamesMean(columns: seq<ColumnDef>)
    ensures |NamesOf(columns)| == |columns|
    ensures forall i :: 0 <= i < |columns| ==> NamesOf(columns)[i] == columns[i].name
    decreases |columns|
  {
    if columns != [] { NamesMean(columns[..|columns| - 1]); }
  }

  /** Every row has exactly the columns. */
  ghost predicate RowsFit(columns: seq<ColumnDef>, rows: seq<Row>) {
    forall i, n: string :: 0 <= i < |rows| ==> (n in rows[i] <==> exists c :: c in columns && c.name == n)
  }

  /** No NOT NULL column is null. */
  ghost predicate NoNulls(columns: seq<ColumnDef>, rows: seq<Row>) {
    forall i, c :: 0 <= i < |rows| && c in columns && c.notNull && c.name in rows[i] ==> rows[i][c.name] != Null
  }

  /** No two rows print the same non-null value in a UNIQUE column. */
  ghost predicate AllDiffer(show: Value -> string, columns: seq<ColumnDef>, rows: seq<Row>) {
    forall i, j, c :: 0 <= i < j < |rows| && c in columns && c.unique && c.name in rows[i] && c.name in rows[j] ==>
      rows[i][c.name] == Null || rows[j][c.name] == Null || show(rows[i][c.name]) != show(rows[j][c.name])
  }

  lemma RowsOkIff(t: Table)
    requires t.schema == SchemaOf(t.schema.columns)
    ensures (forall i :: 0 <= i < |t.rows| ==> RowOk(t.schema, t.rows[i]))
      <==> RowsFit(t.schema.columns, t.rows) && NoNulls(t.schema.columns, t.rows)
  {
    forall n ensures n in t.schema.names <==> exists c :: c in t.schema.columns && c.name == n {
      SchemaMeans(t.schema.columns, n);
    }
    forall n ensures n in t.schema.notNull <==> exists c :: c in t.schema.columns && c.name == n && c.notNull {
      SchemaMeans(t.schema.columns, n);
    }
    if forall i :: 0 <= i < |t.rows| ==> RowOk(t.schema, t.rows[i]) {
      forall i, n: string | 0 <= i < |t.rows|
        ensures n in t.rows[i] <==> exists c :: c in t.schema.columns && c.name == n
      {
        assert RowOk(t.schema, t.rows[i]) && (n in t.rows[i] <==> n in t.rows[i].Keys);
      }
      forall i, c | 0 <= i < |t.rows| && c in t.schema.columns && c.notNull && c.name in t.rows[i]
        ensures t.rows[i][c.name] != Null
      {
        assert RowOk(t.schema, t.rows[i]) && c.name in t.schema.notNull;
      }
    }
    if RowsFit(t.schema.columns, t.rows) && NoNulls(t.schema.columns, t.rows) {
      forall i | 0 <= i < |t.rows| ensures RowOk(t.schema, t.rows[i]) {
        forall n ensures n in t.rows[i].Keys <==> n in t.schema.names {
          assert n in t.rows[i] <==> n in t.rows[i].Keys;
        }
        forall n | n in t.schema.notNull && n in t.rows[i] ensures !t.rows[i][n].Null? {
          var c :| c in t.schema.columns && c.name == n && c.notNull;
          assert t.rows[i][c.name] != Null;
        }
      }
    }
  }

  lemma NoClashIff(env: Env, t: Table)
    requires t.schema == SchemaOf(t.schema.columns)
    ensures NoClash(env, t.schema, t.rows) <==> AllDiffer(env.show, t.schema.columns, t.rows)
  {
    forall n ensures n in t.schema.unique <==> exists c :: c in t.schema.columns && c.name == n && c.unique {
      SchemaMeans(t.schema.columns, n);
    }
    if NoClash(env, t.schema, t.rows) {
      forall i, j, c | 0 <= i < j < |t.rows| && c in t.schema.columns && c.unique
                       && c.name in t.rows[i] && c.name in t.rows[j]
        ensures t.rows[i][c.name] == Null || t.rows[j][c.name] == Null
                || env.show(t.rows[i][c.name]) != env.show(t.rows[j][c.name])
      {
        assert c.name in t.schema.unique && !Clash(env, c.name, t.rows[j], t.rows[i]);
      }
    }
    if AllDiffer(env.show, t.schema.columns, t.rows) {
      forall n, i, j | n in t.schema.unique && 0 <= i < j < |t.rows| ensures !Clash(env, n, t.rows[j], t.rows[i]) {
        var c :| c in t.schema.columns && c.name == n && c.unique;
        assert c.name == n;
      }
    }
  }

  /** The constraints that are kept over runs, in terms of the column definitions. */
  lemma TableOkMeans(env: Env, t: Table)
    ensures TableOk(env, t) <==>
      && t.schema == SchemaOf(t.schema.columns) && RowsFit(t.schema.columns, t.rows)
      && NoNulls(t.schema.columns, t.rows) && AllDiffer(env.show, t.schema.columns, t.rows)
  {
    if t.schema == SchemaOf(t.schema.columns) {
      RowsOkIff(t);
      NoClashIff(env, t);
    }
  }

  // ----- First errors -----

  /** Place i is the first with an error. */
  ghost predicate FirstAt(errors: nat -> Option<Error>, n: nat, i: nat, e: Error) {
    i < n && errors(i) == Some(e) && forall k: nat :: k < i ==> errors(k) == None
  }

  /** Nothing goes wrong, or r is the first error. */
  ghost predicate FailsFirst<T>(errors: nat -> Option<Error>, n: nat, r: Result<T>) {
    && (r.Ok? <==> forall k: nat :: k < n ==> errors(k) == None)
    && (r.Err? ==> exists i :: FirstAt(errors, n, i, r.error))
  }

  /** One more place. */
  lemma FailsFirstNext<T, U>(errors: nat -> Option<Error>, n: nat, before: Result<T>, after: Result<U>)
    requires FailsFirst(errors, n, before)
    requires match before
      case Err(e) => after == Err(e)
      case Ok(_) => (match errors(n) case Some(e) => after == Err(e) case None => after.Ok?)
    ensures FailsFirst(errors, n + 1, after)
  {
    if before.Err? {
      var i :| FirstAt(errors, n, i, before.error);
      assert FirstAt(errors, n + 1, i, before.error);
    } else if errors(n).Some? {
      assert FirstAt(errors, n + 1, n, errors(n).value);
    }
  }

  lemma SameErrors<T>(f: nat -> Option<Error>, g: nat -> Option<Error>, n: nat, r: Result<T>)
    requires FailsFirst(f, n, r) && forall k: nat :: k < n ==> f(k) == g(k)
    ensures FailsFirst(g, n, r)
  {
    if r.Err? {
      var i :| FirstAt(f, n, i, r.error);
      assert FirstAt(g, n, i, r.error);
    }
  }

  // ----- WHERE -----

  function ClauseErrors(holds: Predicate, rows: seq<Row>): nat -> Option<Error> {
    (k: nat) => if k < |rows| && holds(rows[k]).Err? then Some(holds(rows[k]).error) else None
  }

  /** A clause that fails on some row reports its first error. */
  lemma {:induction false} FilterFails(holds: Predicate, rows: seq<Row>)
    ensures FailsFirst(ClauseErrors(holds, rows), |rows|, FilterRows(Filter(holds), rows))
    decreases |rows|
  {
    if rows != [] {
      var n := |rows| - 1;
      var before := FilterRows(Filter(holds), rows[..n]);
      FilterFails(holds, rows[..n]);
      SameErrors(ClauseErrors(holds, rows[..n]), ClauseErrors(holds, rows), n, before);
      FailsFirstNext(ClauseErrors(holds, rows), n, before, FilterRows(Filter(holds), rows));
    }
  }

  // ----- SELECT: the columns -----

  /** An asterisk alone: all columns, in the order of the schema. */
  lemma StarMeans(schema: Schema)
    ensures var r := SelectColumns(schema, [Column("*")]);
      r.Ok? && |r.value| == |schema.columns| && forall i :: 0 <= i < |r.value| ==> r.value[i] == schema.columns[i].name
  {
    NamesMean(schema.columns);
  }

  /** names are the column names among the expressions, in order; places are where they stand. */
  ghost predicate ColumnNames(columns: seq<Expression>, names: seq<string>, places: seq<nat>) {
    && |places| == |names|
    && (forall i :: 0 <= i < |places| ==> places[i] < |columns| && columns[places[i]] == Column(names[i]))
    && (forall i, j :: 0 <= i < j < |places| ==> places[i] < places[j])
    && (forall k: nat :: k < |columns| && columns[k].Column? ==> k in places)
  }

  lemma ColumnNamesNext(columns: seq<Expression>, names: seq<string>, places: seq<nat>, e: Expression)
    requires ColumnNames(columns, names, places)
    ensures e.Column? ==> ColumnNames(columns + [e], names + [e.name], places + [|columns|])
    ensures !e.Column? ==> ColumnNames(columns + [e], names, places)
  {
    if e.Column? {
      forall k: nat | k < |columns + [e]| && (columns + [e])[k].Column? ensures k in places + [|columns|] {
        if k < |columns| { assert (columns + [e])[k] == columns[k]; }
      }
    } else {
      forall k: nat | k < |columns + [e]| && (columns + [e])[k].Column? ensures k in places {
        assert k < |columns| && (columns + [e])[k] == columns[k];
      }
    }
  }

  /** All column names are known to the schema. */
  predicate NamesKnown(schema: Schema, columns: seq<Expression>) {
    forall i :: 0 <= i < |columns| && columns[i].Column? ==> columns[i].name in schema.names
  }

  lemma {:induction false} NamedColumnsMean(schema: Schema, columns: seq<Expression>) returns (places: seq<nat>)
    ensures NamedColumns(schema, columns).Ok? <==> NamesKnown(schema, columns)
    ensures NamedColumns(schema, columns).Err? ==> NamedColumns(schema, columns).error == NoSuchColumn
    ensures NamedColumns(schema, columns).Ok? ==> ColumnNames(columns, NamedColumns(schema, columns).value, places)
    decreases |columns|
  {
    places := [];
    if columns != [] {
      var n := |columns| - 1;
      assert columns == columns[..n] + [columns[n]];
      places := NamedColumnsMean(schema, columns[..n]);
      assert forall i :: 0 <= i < n ==> columns[..n][i] == columns[i];
      var before := NamedColumns(schema, columns[..n]);
      if before.Ok? {
        ColumnNamesNext(columns[..n], before.value, places, columns[n]);
        if columns[n].Column? { places := places + [n]; }
      }
    }
  }

  /** Anything but an asterisk alone: exactly the column names in the list, in order; expressions
      that are not column names are passed over.  It fails exactly when a name is unknown. */
  lemma ColumnsMean(schema: Schema, columns: seq<Expression>) returns (places: seq<nat>)
    requires columns != [Column("*")]
    ensures var r := SelectColumns(schema, columns);
      && (r.Ok? <==> NamesKnown(schema, columns))
      && (r.Err? ==> r.error == NoSuchColumn)
      && (r.Ok? ==> ColumnNames(columns, r.value, places))
  {
    if |columns| == 1 {
      places := if columns[0].Column? then [0] else [];
      assert columns == [columns[0]];
    } else {
      places := NamedColumnsMean(schema, columns);
    }
  }

  // ----- INSERT: building a row -----

  /** Why a value cannot go under a name. */
  function ValueError(env: Env, schema: Schema, name: string, value: Expression): Option<Error> {
    if name !in schema.names then Some(NoSuchColumn)
    else
      match value
      case Literal(text, kind) =>
        var v := env.convert(text, if kind == "STRING" then "VARCHAR" else kind);
        if v.Err? then Some(v.error) else None
      case _ => Some(NotLiteral)
  }

  function ValueErrors(env: Env, schema: Schema, names: seq<string>, values: seq<Expression>): nat -> Option<Error> {
    (i: nat) => if i < |names| && i < |values| then ValueError(env, schema, names[i], values[i]) else None
  }

  lemma {:induction false} NamedValuesFail(env: Env, schema: Schema, names: seq<string>, values: seq<Expression>)
    requires |names| == |values|
    ensures FailsFirst(ValueErrors(env, schema, names, values), |names|, NamedValues(env, schema, names, values))
    decreases |names|
  {
    var errors := ValueErrors(env, schema, names, values);
    if names != [] {
      var n := |names| - 1;
      NamedValuesFail(env, schema, names[..n], values[..n]);
      var before := NamedValues(env, schema, names[..n], values[..n]);
      SameErrors(ValueErrors(env, schema, names[..n], values[..n]), errors, n, before);
      FailsFirstNext(errors, n, before, NamedValues(env, schema, names, values));
    }
  }

  /** Why a column has no default, if it needs one. */
  function DefaultError(env: Env, columns: seq<ColumnDef>, given: set<string>, k: nat): Option<Error> {
    if k >= |columns| || columns[k].name in given then None
    else if exists j :: 0 <= j < k && columns[j].name == columns[k].name then None
    else if columns[k].default != "" then
      var v := env.convert(columns[k].default, columns[k].kind);
      if v.Err? then Some(v.error) else None
    else if columns[k].notNull then Some(NotNullViolated)
    else None
  }

  function DefaultErrors(env: Env, columns: seq<ColumnDef>, given: set<string>): nat -> Option<Error> {
    (k: nat) => DefaultError(env, columns, given, k)
  }

  lemma NamesAre(columns: seq<ColumnDef>, name: string)
    ensures name in Elements(NamesOf(columns)) <==> exists j :: 0 <= j < |columns| && columns[j].name == name
  {
    NamesMean(columns);
    if name in NamesOf(columns) {
      var j :| 0 <= j < |NamesOf(columns)| && NamesOf(columns)[j] == name;
      assert columns[j].name == name;
    }
    if j :| 0 <= j < |columns| && columns[j].name == name { assert NamesOf(columns)[j] in NamesOf(columns); }
  }

  lemma {:induction false} DefaultsFail(env: Env, columns: seq<ColumnDef>, row: Row)
    ensures FailsFirst(DefaultErrors(env, columns, row.Keys), |columns|, AddDefaults(env, columns, row))
    decreases |columns|
  {
    var errors := DefaultErrors(env, columns, row.Keys);
    if columns != [] {
      var n := |columns| - 1;
      var init, before := columns[..n], AddDefaults(env, columns[..n], row);
      DefaultsFail(env, init, row);
      assert forall j :: 0 <= j < n ==> init[j] == columns[j];
      SameErrors(DefaultErrors(env, init, row.Keys), errors, n, before);
      if before.Ok? {
        DefaultsKeys(env, init, row);
        NamesAre(init, columns[n].name);
      }
      FailsFirstNext(errors, n, before, AddDefaults(env, columns, row));
    }
  }

  /** The values are good under their names, or some is not and r is the first error. */
  ghost predicate ValuesFail<T>(wrong: nat -> Option<Error>, n: nat, r: Result<T>) {
    (exists k: nat :: k < n && wrong(k) != None) && exists i, e :: FirstAt(wrong, n, i, e) && r == Err(e)
  }

  ghost predicate ValuesGood(wrong: nat -> Option<Error>, n: nat) {
    forall k: nat :: k < n ==> wrong(k) == None
  }

  lemma FailOrGood<T, U>(wrong: nat -> Option<Error>, n: nat, named: Result<T>, r: Result<U>)
    requires FailsFirst(wrong, n, named) && (named.Err? ==> r == Err(named.error))
    ensures ValuesGood(wrong, n) <==> named.Ok?
    ensures named.Err? ==> ValuesFail(wrong, n, r)
  {
    if named.Err? {
      var i :| FirstAt(wrong, n, i, named.error);
      assert wrong(i) != None;
    }
  }

  /** When a row can be built: as many values as columns, each good under its name, and a default
      for each column not named.  Otherwise the first thing wrong is the error. */
  lemma BuildMeans(env: Env, schema: Schema, names: seq<string>, values: seq<Expression>)
    ensures var r := BuildRow(env, schema, names, values);
      var given := if names == [] then NamesOf(schema.columns) else names;
      if |values| != |given| then r == Err(ColumnCount)
      else if !ValuesGood(ValueErrors(env, schema, given, values), |given|) then
        ValuesFail(ValueErrors(env, schema, given, values), |given|, r)
      else if names == [] then r.Ok?
      else FailsFirst(DefaultErrors(env, schema.columns, Elements(names)), |schema.columns|, r)
  {
    NamesMean(schema.columns);
    var given := if names == [] then NamesOf(schema.columns) else names;
    if |values| == |given| {
      var named, r := NamedValues(env, schema, given, values), BuildRow(env, schema, names, values);
      NamedValuesFail(env, schema, given, values);
      FailOrGood(ValueErrors(env, schema, given, values), |given|, named, r);
      if named.Ok? && names != [] {
        NamedValuesKeys(env, schema, names, values);
        DefaultsFail(env, schema.columns, named.value);
      }
    }
  }

  // ----- INSERT: storing rows -----

  /** validate_row: first a null in NOT NULL, then a printed non-null value in UNIQUE that a stored
      row prints too. */
  lemma ValidatedMeans(env: Env, schema: Schema, rows: seq<Row>, row: Row)
    ensures Validated(env, schema, rows, row) ==
              if exists c :: c in schema.notNull && c in row && row[c] == Null then Err(NotNullViolated)
              else if exists c, i :: c in schema.unique && 0 <= i < |rows| && c in row && c in rows[i]
                        && row[c] != Null && rows[i][c] != Null && env.show(row[c]) == env.show(rows[i][c])
                   then Err(UniqueViolated)
              else Ok(())
  {
    if NullViolation(schema, row) {
      var c :| c in schema.notNull && c in row && row[c].Null?;
      assert row[c] == Null;
    }
    if UniqueViolation(env, schema, rows, row) {
      var c, i :| c in schema.unique && 0 <= i < |rows| && Clash(env, c, row, rows[i]);
      assert c in row && c in rows[i] && env.show(row[c]) == env.show(rows[i][c]);
    }
    if c, i :| c in schema.unique && 0 <= i < |rows| && c in row && c in rows[i] && row[c] != Null
               && rows[i][c] != Null && env.show(row[c]) == env.show(rows[i][c]) {
      assert Clash(env, c, row, rows[i]);
    }
  }

  /** Row i of the list was built from its values and found valid among the rows before it. */
  ghost predicate StoredAt(env: Env, t: Table, names: seq<string>, values: seq<seq<Expression>>, rows: seq<Row>, i: nat)
    requires i < |values| && |t.rows| + i < |rows|
  {
    && BuildRow(env, t.schema, names, values[i]) == Ok(rows[|t.rows| + i])
    && Validated(env, t.schema, rows[..|t.rows| + i], rows[|t.rows| + i]).Ok?
  }

  /** The values cannot be built into a row, or the row is not valid among those of the table. */
  ghost predicate RefusedWith(env: Env, t: Table, names: seq<string>, values: seq<Expression>, e: Error) {
    match BuildRow(env, t.schema, names, values)
    case Err(why) => why == e
    case Ok(row) => Validated(env, t.schema, t.rows, row) == Err(e)
  }

  /** What INSERT stores: behind the rows there were, the rows built from the lists of values, as far
      as they can be built and are valid among the rows before them.  If one cannot or is not, that
      is the error, and the statement ends there; else the number of lists is the answer. */
  lemma {:induction false} InsertStores(env: Env, t: Table, names: seq<string>, values: seq<seq<Expression>>)
    ensures var (t', r) := InsertAll(env, t, names, values);
      var n := |t'.rows| - |t.rows|;
      && t'.schema == t.schema && t.rows <= t'.rows && n <= |values|
      && (forall i: nat :: i < n ==> StoredAt(env, t, names, values, t'.rows, i))
      && (r.Ok? ==> n == |values| && r.value == n)
      && (r.Err? ==> n < |values| && RefusedWith(env, t', names, values[n], r.error))
    decreases |values|
  {
    if values != [] {
      var m := |values| - 1;
      InsertStores(env, t, names, values[..m]);
      var (t1, r1) := InsertAll(env, t, names, values[..m]);
      var (t', r) := InsertAll(env, t, names, values);
      var n := |t1.rows| - |t.rows|;
      assert n < m ==> values[..m][n] == values[n];
      forall i: nat | i < |t'.rows| - |t.rows| ensures StoredAt(env, t, names, values, t'.rows, i) {
        if i < n {
          assert StoredAt(env, t, names, values[..m], t1.rows, i);
          assert t'.rows[..|t.rows| + i] == t1.rows[..|t.rows| + i] && values[..m][i] == values[i];
        } else {
          assert t'.rows[..|t.rows| + i] == t1.rows;
        }
      }
    }
  }

  // ----- SELECT: the errors -----

  /** An unknown column first, then the clause's first error. */
  lemma SelectErrors(sort: Sorter, t: Table, q: Select)
    ensures SelectColumns(t.schema, q.columns).Err? ==> SelectRows(sort, t, q) == Err(NoSuchColumn)
    ensures SelectColumns(t.schema, q.columns).Ok? && FilterRows(q.where_, t.rows).Err? ==>
              SelectRows(sort, t, q) == Err(FilterRows(q.where_, t.rows).error)
  {
    if q.columns != [Column("*")] {
      var places := ColumnsMean(t.schema, q.columns);
    } else {
      StarMeans(t.schema);
    }
  }

  // ----- DELETE -----

  lemma {:induction false} FoundAndLeft(w: Where, rows: seq<Row>)
    ensures FilterRows(w, rows).Ok? <==> FirstError(w, rows) == |rows|
    ensures FilterRows(w, rows).Ok? ==> |FilterRows(w, rows).value| + |Remaining(w, rows)| == |rows|
    decreases |rows|
  {
    FilterMeans(w, rows);
    if forall i :: 0 <= i < |rows| ==> Test(w, rows[i]).Ok? {
      DeleteComplementsFilter(w, rows);
      var kept, left := FilterRows(w, rows).value, Remaining(w, rows);
      assert |multiset(kept) + multiset(left)| == |multiset(rows)|;
    }
  }

  /** The answer of DELETE: how many rows SELECT with the clause would find, or the same error. */
  lemma DeleteAnswers(w: Where, rows: seq<Row>)
    ensures DeleteAnswer(w, rows)
      == match FilterRows(w, rows) case Err(e) => Err(e) case Ok(found) => Ok(|found|)
  {
    FoundAndLeft(w, rows);
    if FilterRows(w, rows).Err? {
      FirstErrorIsReported(w, rows);
    }
  }

  lemma {:induction false} FirstErrorIsReported(w: Where, rows: seq<Row>)
    requires FilterRows(w, rows).Err?
    ensures FirstError(w, rows) < |rows| && FilterRows(w, rows) == Err(Test(w, rows[FirstError(w, rows)]).error)
  {
    FoundAndLeft(w, rows);
    FilterFails(w.holds, rows);
    var errors := ClauseErrors(w.holds, rows);
    var i: nat :| FirstAt(errors, |rows|, i, FilterRows(w, rows).error);
    var e := FirstError(w, rows);
    assert errors(e) == Some(Test(w, rows[e]).error);
    forall k: nat | k < e ensures errors(k) == None { assert Test(w, rows[k]).Ok?; }
    assert i == e;
  }

  /** The rows on which the clause does not hold stand at the given places. */
  ghost predicate LeftInOrder(w: Where, rows: seq<Row>, left: seq<Row>, places: seq<nat>) {
    At(rows, left, places) && forall k: nat :: k < |rows| ==> (k in places <==> !ClauseHolds(w, rows[k]))
  }

  /** What DELETE leaves: without an error, exactly the rows on which the clause does not hold, in
      order; with one, as many rows as there were, untouched from the failing one on, and in
      front, in order, those before it on which the clause does not hold. */
  lemma DeleteLeaves(env: Env, w: Where, rows: seq<Row>) returns (places: seq<nat>)
    ensures var after, e := AfterDelete(env, w, rows), FirstError(w, rows);
      if e == |rows| then LeftInOrder(w, rows, after, places)
      else |after| == |rows| && after[e..] == rows[e..] && |places| <= e
           && LeftInOrder(w, rows[..e], after[..|places|], places)
  {
    var e := FirstError(w, rows);
    assert rows[..|rows|] == rows;
    places := RemainingPlaces(w, rows[..e]);
    forall row ensures Test(w, row) == Ok(true) <==> ClauseHolds(w, row) { TestMeans(w, row); }
    CompactedStands(env, w, rows, e);
  }

  // ----- UPDATE -----

  function AssignErrors(schema: Schema, sets: seq<Assignment>, row: Row): nat -> Option<Error> {
    (k: nat) =>
      if k >= |sets| then None
      else if sets[k].column !in schema.names then Some(NoSuchColumn)
      else
        var v := sets[k].value(AssignAll(schema, sets[..k], row).row);
        if v.Err? then Some(v.error) else None
  }

  function Outcome(a: Assigned): Result<()> {
    match a.error case Some(e) => Err(e) case None => Ok(())
  }

  /** The assignments fail exactly at the first with an unknown column or an expression that fails on
      the row as it is then, and leave the row as it is then. */
  lemma {:induction false} AssignFails(schema: Schema, sets: seq<Assignment>, row: Row)
    ensures FailsFirst(AssignErrors(schema, sets, row), |sets|, Outcome(AssignAll(schema, sets, row)))
    ensures forall i: nat, e :: FirstAt(AssignErrors(schema, sets, row), |sets|, i, e) ==>
              AssignAll(schema, sets, row).row == AssignAll(schema, sets[..i], row).row
    decreases |sets|
  {
    var errors := AssignErrors(schema, sets, row);
    if sets != [] {
      var n := |sets| - 1;
      var before := AssignAll(schema, sets[..n], row);
      AssignFails(schema, sets[..n], row);
      forall k: nat | k < n ensures AssignErrors(schema, sets[..n], row)(k) == errors(k) {
        assert sets[..n][k] == sets[k] && sets[..n][..k] == sets[..k];
      }
      SameErrors(AssignErrors(schema, sets[..n], row), errors, n, Outcome(before));
      FailsFirstNext(errors, n, Outcome(before), Outcome(AssignAll(schema, sets, row)));
      forall i: nat, e | FirstAt(errors, |sets|, i, e)
        ensures AssignAll(schema, sets, row).row == AssignAll(schema, sets[..i], row).row
      {
        if i < n {
          assert FirstAt(AssignErrors(schema, sets[..n], row), n, i, e) && sets[..n][..i] == sets[..i];
        }
      }
    }
  }

  /** Why the statement cannot get past a row. */
  function StopError(schema: Schema, w: Where, sets: seq<Assignment>, row: Row): Option<Error> {
    match Test(w, row)
    case Err(e) => Some(e)
    case Ok(false) => None
    case Ok(true) =>
      var a := AssignAll(schema, sets, row);
      if a.error.Some? then a.error
      else if exists c :: c in schema.notNull && c in a.row && a.row[c] == Null then Some(NotNullViolated)
      else if exists c :: c in schema.unique && c in a.row && a.row[c] != Null then Some(UniqueViolated)
      else None
  }

  lemma StopErrorMeans(env: Env, schema: Schema, w: Where, sets: seq<Assignment>, rows: seq<Row>, i: nat)
    requires i < |rows|
    ensures UpdateOne(env, schema, w, sets, rows, i).error == StopError(schema, w, sets, rows[i])
  {
    var row := AssignAll(schema, sets, rows[i]).row;
    UniqueViolationIff(env, schema, rows, i, row);
    if NullViolation(schema, row) {
      var c :| c in schema.notNull && c in row && row[c].Null?;
      assert row[c] == Null;
    }
    if HasUnique(schema, row) {
      var c :| c in schema.unique && c in row && !row[c].Null?;
      assert row[c] != Null;
    }
  }

  /** The answer of UPDATE: the reason of the first row that it cannot get past, or the number of
      rows that SELECT with the clause would find. */
  lemma UpdateAnswers(env: Env, t: Table, w: Where, sets: seq<Assignment>)
    ensures var e := FirstStop(t.schema, w, sets, t.rows);
      if e < |t.rows| then
        var why := StopError(t.schema, w, sets, t.rows[e]);
        why.Some? && UpdateAnswer(env, t, w, sets) == Err(why.value)
      else FilterRows(w, t.rows).Ok? && UpdateAnswer(env, t, w, sets) == Ok(|FilterRows(w, t.rows).value|)
  {
    var e := FirstStop(t.schema, w, sets, t.rows);
    UpdateSucceedsIff(env, t.schema, w, sets, t.rows);
    if e < |t.rows| {
      var step := Round(env, t.schema, w, sets);
      RoundStops(env, t.schema, w, sets);
      LoopStops(step, Stopper(t.schema, w, sets), t.rows, e);
      var before := UpdateWith(step, t.rows, e).rows;
      StopErrorMeans(env, t.schema, w, sets, before, e);
      assert step(before, e) == UpdateOne(env, t.schema, w, sets, before, e);
    } else {
      CountMeans(env, t.schema, w, sets, t.rows);
    }
  }

  lemma CountMeans(env: Env, schema: Schema, w: Where, sets: seq<Assignment>, rows: seq<Row>)
    requires UpdateRows(env, schema, w, sets, rows).error.None?
    ensures FilterRows(w, rows).Ok? && UpdateRows(env, schema, w, sets, rows).count == |FilterRows(w, rows).value|
  {
    if rows != [] { UpdateMeans(env, schema, w, sets, rows, 0); }
  }

  // ----- Statements -----

  /** What a statement does to the tables: CREATE TABLE adds one without rows, the others change the
      rows of the named one only. */
  lemma ApplyMeans(env: Env, db: Database, s: Statement)
    ensures var db' := Apply(env, db, s);
      && (forall other :: other in db && other != s.name ==> other in db' && db'[other] == db[other])
      && (forall other :: other in db' && other != s.name ==> other in db)
      && (s.name == "" || s.SelectFrom? ==> db' == db)
      && (s.CreateTable? ==> if s.name == "" || s.columns == [] || s.name in db then db' == db
                             else s.name in db' && db'[s.name] == Table(SchemaOf(s.columns), []))
      && (!s.CreateTable? ==> (s.name in db' <==> s.name in db))
      && (s.name != "" && s.name in db ==>
            && (s.InsertInto? ==> db'[s.name] == InsertAll(env, db[s.name], s.names, s.values).0)
            && (s.UpdateSet? ==>
                  var u := UpdateRows(env, db[s.name].schema, s.where_, s.sets, db[s.name].rows);
                  db'[s.name] == db[s.name].(rows := u.rows))
            && (s.DeleteFrom? ==> db'[s.name] == db[s.name].(rows := AfterDelete(env, s.where_, db[s.name].rows))))
  {
  }
}
