/**
 The classes Database and QueryExecutor of src/query_executor_engine.cpp, with their loops,
 proved against the functions of module Queries.
 */
module Executor {
  import opened Options
  import opened Ordering
  import opened Queries
  import opened Updates
  import opened Runs

  class QueryExecutor {
    const env: Env
    const sort: Sorter
    var tables: Database

    ghost predicate Valid()
      reads this
    {
      DatabaseOk(env, tables)
    }

    constructor (env: Env, sort: Sorter)
      ensures Valid() && tables == map[] && this.env == env && this.sort == sort
    {
      this.env, this.sort, tables := env, sort, map[];
    }

    /** execute_create_table and create_table. */
    method ExecuteCreateTable(name: string, columns: seq<ColumnDef>) returns (r: Result<nat>)
      requires Valid()
      modifies this
      ensures Valid() && tables == Apply(env, old(tables), CreateTable(name, columns))
      ensures r == if name == "" then Err(EmptyName) else if columns == [] then Err(NoColumns)
                   else if name in old(tables) then Err(TableExists) else Ok(0)
    {
      ApplyKeeps(env, tables, CreateTable(name, columns));
      if name == "" { return Err(EmptyName); }
      if columns == [] { return Err(NoColumns); }
      if name in tables { return Err(TableExists); }
      var schema := BuildSchema(columns);
      tables := tables[name := Table(schema, [])];
      r := Ok(0);
    }

    /** The loop of create_table over the columns. */
    static method BuildSchema(columns: seq<ColumnDef>) returns (schema: Schema)
      ensures schema == SchemaOf(columns)
    {
      var names, unique, notNull := {}, {}, {};
      for i := 0 to |columns|
        invariant Schema(columns[..i], names, unique, notNull) == SchemaOf(columns[..i])
      {
        assert columns[..i + 1] == columns[..i] + [columns[i]];
        names := names + {columns[i].name};
        if columns[i].unique { unique := unique + {columns[i].name}; }
        if columns[i].notNull { notNull := notNull + {columns[i].name}; }
      }
      assert columns[..|columns|] == columns;
      schema := Schema(columns, names, unique, notNull);
    }

    /** execute_insert: rows are appended one by one; a failing one ends the statement. */
    method ExecuteInsert(name: string, names: seq<string>, values: seq<seq<Expression>>) returns (r: Result<nat>)
      requires Valid()
      modifies this
      ensures Valid() && tables == Apply(env, old(tables), InsertInto(name, names, values))
      ensures r == if name == "" then Err(EmptyName) else if name !in old(tables) then Err(NoSuchTable)
                   else InsertAll(env, old(tables)[name], names, values).1
    {
      ApplyKeeps(env, tables, InsertInto(name, names, values));
      if name == "" { return Err(EmptyName); }
      if name !in tables { return Err(NoSuchTable); }
      var table, answer := InsertLoop(tables[name], names, values);
      tables := tables[name := table];
      r := answer;
    }

    /** The loop of execute_insert over the lists of values. */
    method InsertLoop(table0: Table, names: seq<string>, values: seq<seq<Expression>>)
      returns (table: Table, r: Result<nat>)
      ensures (table, r) == InsertAll(env, table0, names, values)
    {
      table := table0;
      var inserted := 0;
      for i := 0 to |values|
        invariant InsertAll(env, table0, names, values[..i]) == (table, Ok(inserted))
      {
        var row := InsertRow(table, names, values[i]);
        InsertNext(env, table0, names, values, i);
        if row.Err? {
          InsertStops(env, table0, names, values, i + 1);
          return table, Err(row.error);
        }
        table := table.(rows := table.rows + [row.value]);
        inserted := inserted + 1;
      }
      assert values[..|values|] == values;
      r := Ok(inserted);
    }

    /** One round of it: the row, built and validated. */
    method InsertRow(table: Table, names: seq<string>, values: seq<Expression>) returns (r: Result<Row>)
      ensures r == InsertOne(env, table, names, values)
    {
      r := BuildNewRow(table.schema, names, values);
      if r.Ok? {
        var problem := ValidateRow(table, r.value);
        if problem.Err? { return Err(problem.error); }
      }
    }

    /** The building of one row in execute_insert. */
    method BuildNewRow(schema: Schema, names: seq<string>, values: seq<Expression>) returns (r: Result<Row>)
      ensures r == BuildRow(env, schema, names, values)
    {
      if names != [] {
        if |values| != |names| { return Err(ColumnCount); }
        r := FillNamed(schema, names, values);
        if r.Ok? { r := FillDefaults(schema.columns, r.value); }
      } else {
        if |values| != |schema.columns| { return Err(ColumnCount); }
        NamesLength(schema.columns);
        r := FillNamed(schema, NamesOf(schema.columns), values);
      }
    }

    method FillNamed(schema: Schema, names: seq<string>, values: seq<Expression>) returns (r: Result<Row>)
      requires |names| == |values|
      ensures r == NamedValues(env, schema, names, values)
    {
      var row: Row := map[];
      for i := 0 to |names|
        invariant NamedValues(env, schema, names[..i], values[..i]) == Ok(row)
      {
        assert names[..i + 1][..i] == names[..i] && values[..i + 1][..i] == values[..i];
        if names[i] !in schema.names {
          NamedStops(env, schema, names, values, i + 1);
          return Err(NoSuchColumn);
        }
        var v := ConvertLiteral(env, values[i]);
        if v.Err? {
          NamedStops(env, schema, names, values, i + 1);
          return Err(v.error);
        }
        row := row[names[i] := v.value];
      }
      assert names[..|names|] == names && values[..|values|] == values;
      r := Ok(row);
    }

    method FillDefaults(columns: seq<ColumnDef>, given: Row) returns (r: Result<Row>)
      ensures r == AddDefaults(env, columns, given)
    {
      var row := given;
      for i := 0 to |columns|
        invariant AddDefaults(env, columns[..i], given) == Ok(row)
      {
        var c := columns[i];
        assert columns[..i + 1][..i] == columns[..i];
        if c.name !in row {
          if c.default != "" {
            var v := env.convert(c.default, c.kind);
            if v.Err? {
              DefaultsStop(env, columns, given, i + 1);
              return Err(v.error);
            }
            row := row[c.name := v.value];
          } else if !c.notNull {
            row := row[c.name := Null];
          } else {
            DefaultsStop(env, columns, given, i + 1);
            return Err(NotNullViolated);
          }
        }
      }
      assert columns[..|columns|] == columns;
      r := Ok(row);
    }

    /** validate_row: the NOT NULL columns, then the UNIQUE columns against every stored row. */
    method ValidateRow(table: Table, row: Row) returns (r: Result<()>)
      ensures r == Validated(env, table.schema, table.rows, row)
    {
      var todo := table.schema.notNull;
      while todo != {}
        invariant todo <= table.schema.notNull
        invariant forall c :: c in table.schema.notNull && c !in todo ==> !(c in row && row[c].Null?)
        decreases todo
      {
        var c :| c in todo;
        if c in row && row[c].Null? { return Err(NotNullViolated); }
        todo := todo - {c};
      }
      todo := table.schema.unique;
      while todo != {}
        invariant todo <= table.schema.unique
        invariant forall c, i :: c in table.schema.unique && c !in todo && 0 <= i < |table.rows| ==>
          !Clash(env, c, row, table.rows[i])
        decreases todo
      {
        var c :| c in todo;
        for i := 0 to |table.rows|
          invariant forall k :: 0 <= k < i ==> !Clash(env, c, row, table.rows[k])
        {
          if Clash(env, c, row, table.rows[i]) { return Err(UniqueViolated); }
        }
        todo := todo - {c};
      }
      r := Ok(());
    }

    /** execute_select. */
    method ExecuteSelect(name: string, q: Select) returns (r: Result<seq<Row>>)
      ensures r == if name == "" then Err(EmptyName) else if name !in tables then Err(NoSuchTable)
                   else SelectRows(sort, tables[name], q)
    {
      if name == "" { return Err(EmptyName); }
      if name !in tables { return Err(NoSuchTable); }
      var table := tables[name];
      var names := SelectColumns(table.schema, q.columns);
      if names.Err? { return Err(names.error); }
      var kept := FilterLoop(q.where_, table.rows);
      if kept.Err? { return Err(kept.error); }
      var rows := kept.value;
      if q.orderBy != [] {
        var sorted := sort(table.schema.names, q.orderBy, rows);
        if sorted.None? { return Err(NoSuchColumn); }
        rows := sorted.value;
      }
      r := SliceRows(names.value, rows, q.limit, q.offset);
    }

    /** LIMIT and OFFSET. */
    static method SliceRows(names: seq<string>, rows: seq<Row>, limit: int, offset: int) returns (r: Result<seq<Row>>)
      ensures r == Answer(names, rows, limit, offset)
    {
      if offset < 0 {
        if limit == 0 { return Ok([]); }
        return Err(NegativeOffset);
      }
      var end := if limit > 0 then offset + limit else |rows|;
      if limit == 0 { end := offset; }
      var result := SliceLoop(names, rows, offset, end);
      r := Ok(result);
    }

    /** The filtering loop. */
    static method FilterLoop(w: Where, rows: seq<Row>) returns (r: Result<seq<Row>>)
      ensures r == FilterRows(w, rows)
    {
      var kept: seq<Row> := [];
      for i := 0 to |rows|
        invariant FilterRows(w, rows[..i]) == Ok(kept)
      {
        assert rows[..i + 1][..i] == rows[..i];
        var t := Test(w, rows[i]);
        if t.Err? {
          FilterStops(w, rows, i + 1);
          return Err(t.error);
        }
        if t.value { kept := kept + [rows[i]]; }
      }
      assert rows[..|rows|] == rows;
      r := Ok(kept);
    }

    /** The slicing and projecting loop. */
    static method SliceLoop(names: seq<string>, rows: seq<Row>, start: nat, end: int) returns (r: seq<Row>)
      ensures r == if start >= |rows| || start >= end then []
                   else ProjectAll(names, rows[start..if end < |rows| then end else |rows|])
    {
      r := [];
      var i := start;
      while i < end && i < |rows|
        invariant start <= i && (i > start ==> i <= end && i <= |rows|)
        invariant r == if i <= |rows| then ProjectAll(names, rows[start..i]) else []
      {
        ProjectNext(names, rows, start, i);
        r := r + [Project(names, rows[i])];
        i := i + 1;
      }
    }

    /** execute_update: rows are changed in place, one by one; a failing one ends the statement
        and stays as it was left, which is harmless exactly when the statement is clean. */
    method ExecuteUpdate(name: string, w: Where, sets: seq<Assignment>) returns (r: Result<nat>)
      requires Valid()
      modifies this
      ensures tables == Apply(env, old(tables), UpdateSet(name, w, sets))
      ensures Clean(env, old(tables), UpdateSet(name, w, sets)) <==> Valid()
      ensures r == if name == "" then Err(EmptyName) else if name !in old(tables) then Err(NoSuchTable)
                   else UpdateAnswer(env, old(tables)[name], w, sets)
    {
      UpdateIsClean(env, tables, name, w, sets);
      if name == "" { return Err(EmptyName); }
      if name !in tables { return Err(NoSuchTable); }
      var table := tables[name];
      var rows, count, error := UpdateLoop(table.schema, w, sets, table.rows);
      tables := tables[name := table.(rows := rows)];
      r := match error case Some(e) => Err(e) case None => Ok(count);
    }

    /** The loop of execute_update over the rows. */
    method UpdateLoop(schema: Schema, w: Where, sets: seq<Assignment>, rows0: seq<Row>)
      returns (rows: seq<Row>, count: nat, error: Option<Error>)
      ensures var u := UpdateRows(env, schema, w, sets, rows0); rows == u.rows && count == u.count && error == u.error
    {
      rows, count, error := rows0, 0, None;
      ghost var u := Update(rows0, 0, 0, None);
      for i := 0 to |rows0|
        invariant UpdateWith(Round(env, schema, w, sets), rows0, i) == u && u == Update(rows, count, u.at, None)
      {
        var row, updated, problem := UpdateRow(schema, w, sets, rows, i);
        RoundNext(env, schema, w, sets, rows0, i, u, Step(row, updated, problem));
        rows := rows[i := row];
        if updated { count := count + 1; }
        u := Update(rows, count, i, problem);
        if problem.Some? {
          UpdateEnds(env, schema, w, sets, rows0, i + 1, u);
          return rows, count, problem;
        }
      }
      UpdateEnds(env, schema, w, sets, rows0, |rows0|, u);
    }

    /** One round of it. */
    method UpdateRow(schema: Schema, w: Where, sets: seq<Assignment>, rows: seq<Row>, i: nat)
      returns (row: Row, updated: bool, error: Option<Error>)
      requires i < |rows|
      ensures UpdateOne(env, schema, w, sets, rows, i) == Step(row, updated, error)
    {
      var t := Test(w, rows[i]);
      if t.Err? { return rows[i], false, Some(t.error); }
      if !t.value { return rows[i], false, None; }
      row, error := AssignLoop(schema, sets, rows[i]);
      if error.Some? { return row, false, error; }
      var problem := ValidateRow(Table(schema, rows[i := row]), row);
      if problem.Err? { return row, false, Some(problem.error); }
      return row, true, None;
    }

    /** The loop of execute_update over the assignments. */
    static method AssignLoop(schema: Schema, sets: seq<Assignment>, row0: Row) returns (row: Row, error: Option<Error>)
      ensures AssignAll(schema, sets, row0) == Assigned(row, error)
    {
      row := row0;
      for i := 0 to |sets|
        invariant AssignAll(schema, sets[..i], row0) == Assigned(row, None)
      {
        assert sets[..i + 1][..i] == sets[..i];
        if sets[i].column !in schema.names {
          AssignStops(schema, sets, row0, i + 1);
          return row, Some(NoSuchColumn);
        }
        var v := sets[i].value(row);
        if v.Err? {
          AssignStops(schema, sets, row0, i + 1);
          return row, Some(v.error);
        }
        row := row[sets[i].column := v.value];
      }
      assert sets[..|sets|] == sets;
      error := None;
    }

    /** execute_delete: std::remove_if keeps the other rows in order.  An error of the clause
        leaves the vector half compacted, which is harmless exactly when the statement is clean. */
    method ExecuteDelete(name: string, w: Where) returns (r: Result<nat>)
      requires Valid()
      modifies this
      ensures tables == Apply(env, old(tables), DeleteFrom(name, w))
      ensures Clean(env, old(tables), DeleteFrom(name, w)) ==> Valid()
      ensures r == if name == "" then Err(EmptyName) else if name !in old(tables) then Err(NoSuchTable)
                   else DeleteAnswer(w, old(tables)[name].rows)
    {
      if Clean(env, tables, DeleteFrom(name, w)) { ApplyKeeps(env, tables, DeleteFrom(name, w)); }
      if name == "" { return Err(EmptyName); }
      if name !in tables { return Err(NoSuchTable); }
      var table := tables[name];
      var rows, answer := RemoveIf(w, table.rows);
      tables := tables[name := table.(rows := rows)];
      r := answer;
    }

    /** std::remove_if and the erasing after it. */
    method RemoveIf(w: Where, rows0: seq<Row>) returns (rows: seq<Row>, answer: Result<nat>)
      ensures rows == AfterDelete(env, w, rows0) && answer == DeleteAnswer(w, rows0)
    {
      var kept, end, error;
      rows, kept, end, error := Compact(w, rows0);
      DeleteEnds(env, w, rows0, end);
      if error.Some? { return rows, Err(error.value); }
      rows := rows[..kept];
      answer := Ok(|rows0| - kept);
    }

    /** The loop of std::remove_if, up to the clause's first error. */
    method Compact(w: Where, rows0: seq<Row>) returns (rows: seq<Row>, kept: nat, end: nat, error: Option<Error>)
      ensures end <= |rows0| && rows == Compacted(env, w, rows0, end) && kept == |Remaining(w, rows0[..end])|
      ensures forall k :: 0 <= k < end ==> Test(w, rows0[k]).Ok?
      ensures if end < |rows0| then error.Some? && Test(w, rows0[end]) == Err(error.value) else error.None?
    {
      rows, kept := rows0, 0;
      for i := 0 to |rows0|
        invariant rows == Compacted(env, w, rows0, i) && kept == |Remaining(w, rows0[..i])|
        invariant forall k :: 0 <= k < i ==> Test(w, rows0[k]).Ok?
      {
        CompactedStep(env, w, rows0, i);
        var t := Test(w, rows[i]);
        if t.Err? { return rows, kept, i, Some(t.error); }
        if !t.value {
          if kept < i { rows := rows[kept := rows[i]][i := env.movedFrom(rows[i])]; }
          kept := kept + 1;
        }
      }
      return rows, kept, |rows0|, None;
    }
  }

  lemma ProjectNext(names: seq<string>, rows: seq<Row>, start: nat, i: nat)
    requires start <= i < |rows|
    ensures ProjectAll(names, rows[start..i + 1]) == ProjectAll(names, rows[start..i]) + [Project(names, rows[i])]
  {
    assert rows[start..i + 1] == rows[start..i] + [rows[i]];
  }

  lemma UpdateIsClean(env: Env, db: Database, name: string, w: Where, sets: seq<Assignment>)
    requires DatabaseOk(env, db)
    ensures Clean(env, db, UpdateSet(name, w, sets)) <==> DatabaseOk(env, Apply(env, db, UpdateSet(name, w, sets)))
  {
    if name != "" && name in db {
      UpdateKeepsIff(env, db[name], w, sets);
      assert AfterUpdate(env, db[name], w, sets) == Apply(env, db, UpdateSet(name, w, sets))[name];
    }
  }

  lemma FirstErrorIs(w: Where, rows: seq<Row>, e: nat)
    requires e <= |rows| && (e < |rows| ==> Test(w, rows[e]).Err?) && forall k :: 0 <= k < e ==> Test(w, rows[k]).Ok?
    ensures FirstError(w, rows) == e
  {
  }

  lemma DeleteEnds(env: Env, w: Where, rows: seq<Row>, e: nat)
    requires e <= |rows| && (e < |rows| ==> Test(w, rows[e]).Err?) && forall k :: 0 <= k < e ==> Test(w, rows[k]).Ok?
    ensures var vector, kept := Compacted(env, w, rows, e), |Remaining(w, rows[..e])|;
      if e < |rows| then AfterDelete(env, w, rows) == vector && DeleteAnswer(w, rows) == Err(Test(w, rows[e]).error)
      else kept <= |rows| && AfterDelete(env, w, rows) == vector[..kept] && DeleteAnswer(w, rows) == Ok(|rows| - kept)
  {
    FirstErrorIs(w, rows, e);
    CompactedWhole(env, w, rows);
  }

  // ----- An error on a prefix is the error of the whole -----

  lemma InsertNext(env: Env, t: Table, names: seq<string>, values: seq<seq<Expression>>, i: nat)
    requires i < |values| && InsertAll(env, t, names, values[..i]).1.Ok?
    ensures var (t1, r) := InsertAll(env, t, names, values[..i]);
      InsertAll(env, t, names, values[..i + 1]) ==
        match InsertOne(env, t1, names, values[i])
        case Err(e) => (t1, Err(e))
        case Ok(row) => (t1.(rows := t1.rows + [row]), Ok(r.value + 1))
  {
    assert values[..i + 1][..i] == values[..i];
  }

  lemma {:induction false} InsertStops(env: Env, t: Table, names: seq<string>, values: seq<seq<Expression>>, k: nat)
    requires k <= |values| && InsertAll(env, t, names, values[..k]).1.Err?
    ensures InsertAll(env, t, names, values) == InsertAll(env, t, names, values[..k])
    decreases |values| - k
  {
    if k < |values| {
      assert values[..k + 1][..k] == values[..k];
      InsertStops(env, t, names, values, k + 1);
    } else {
      assert values[..k] == values;
    }
  }

  lemma {:induction false} NamedStops(env: Env, schema: Schema, names: seq<string>, values: seq<Expression>, k: nat)
    requires k <= |names| == |values| && NamedValues(env, schema, names[..k], values[..k]).Err?
    ensures NamedValues(env, schema, names, values) == NamedValues(env, schema, names[..k], values[..k])
    decreases |names| - k
  {
    if k < |names| {
      assert names[..k + 1][..k] == names[..k] && values[..k + 1][..k] == values[..k];
      NamedStops(env, schema, names, values, k + 1);
    } else {
      assert names[..k] == names && values[..k] == values;
    }
  }

  lemma {:induction false} DefaultsStop(env: Env, columns: seq<ColumnDef>, row: Row, k: nat)
    requires k <= |columns| && AddDefaults(env, columns[..k], row).Err?
    ensures AddDefaults(env, columns, row) == AddDefaults(env, columns[..k], row)
    decreases |columns| - k
  {
    if k < |columns| {
      assert columns[..k + 1][..k] == columns[..k];
      DefaultsStop(env, columns, row, k + 1);
    } else {
      assert columns[..k] == columns;
    }
  }

  lemma {:induction false} AssignStops(schema: Schema, sets: seq<Assignment>, row: Row, k: nat)
    requires k <= |sets| && AssignAll(schema, sets[..k], row).error.Some?
    ensures AssignAll(schema, sets, row) == AssignAll(schema, sets[..k], row)
    decreases |sets| - k
  {
    if k < |sets| {
      assert sets[..k + 1][..k] == sets[..k];
      AssignStops(schema, sets, row, k + 1);
    } else {
      assert sets[..k] == sets;
    }
  }

  lemma {:induction false} FilterStops(w: Where, rows: seq<Row>, k: nat)
    requires k <= |rows| && FilterRows(w, rows[..k]).Err?
    ensures FilterRows(w, rows) == FilterRows(w, rows[..k])
    decreases |rows| - k
  {
    if k < |rows| {
      assert rows[..k + 1][..k] == rows[..k];
      FilterStops(w, rows, k + 1);
    } else {
      assert rows[..k] == rows;
    }
  }
}
