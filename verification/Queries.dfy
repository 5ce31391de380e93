/**
 The query executor of src/query_executor_engine.cpp: CREATE TABLE, INSERT, SELECT and DELETE
 over in-memory tables.

 A WHERE clause is any function from rows to a truth value or an error; the conversion of
 literals and the printing of values (convert_to_type, Value::to_string) are any functions:
 the results hold for all of them.  Exceptions are the errors that operations return.
 */
module Queries {
  import opened Options
  import opened Ordering

  datatype Error =
    | EmptyName | NoColumns | TableExists | NoSuchTable | NoSuchColumn | ColumnCount
    | NotLiteral | BadConversion | NotNullViolated | UniqueViolated | BadPredicate | NegativeOffset

  datatype Result<T> = Ok(value: T) | Err(error: Error)

  // ----- Statements -----

  /** A parsed expression in a list: a literal with its token type, a column name, or anything else. */
  datatype Expression = Literal(text: string, kind: string) | Column(name: string) | Other

  datatype ColumnDef = ColumnDef(name: string, kind: string, notNull: bool, unique: bool, default: string)

  type Predicate = Row -> Result<bool>

  datatype Where = NoWhere | Filter(holds: Predicate)

  /** What the executor takes from the type layer and the library: movedFrom is what the move of
      a row leaves in its old place, of which the library says only that it is some row. */
  datatype Env = Env(convert: (string, string) -> Result<Value>, show: Value -> string, movedFrom: Row -> Row)

  // ----- Tables -----

  datatype Schema = Schema(columns: seq<ColumnDef>, names: set<string>, unique: set<string>, notNull: set<string>)

  datatype Table = Table(schema: Schema, rows: seq<Row>)

  function SchemaOf(columns: seq<ColumnDef>): Schema {
    Schema(columns,
           set c | c in columns :: c.name,
           set c | c in columns && c.unique :: c.name,
           set c | c in columns && c.notNull :: c.name)
  }

  // ----- Filtering -----

  function Test(w: Where, row: Row): Result<bool> {
    match w case NoWhere => Ok(true) case Filter(holds) => holds(row)
  }

  /** The rows for which the clause holds, or its first error. */
  function FilterRows(w: Where, rows: seq<Row>): Result<seq<Row>>
    decreases |rows|
  {
    if rows == [] then Ok([])
    else
      var n := |rows| - 1;
      match FilterRows(w, rows[..n])
      case Err(e) => Err(e)
      case Ok(kept) =>
        match Test(w, rows[n])
        case Err(e) => Err(e)
        case Ok(keep) => Ok(if keep then kept + [rows[n]] else kept)
  }

  ghost predicate NoErrors(w: Where, rows: seq<Row>) {
    forall row :: row in rows ==> Test(w, row).Ok?
  }

  /** Filtering fails exactly when the clause fails on some row, and otherwise keeps, with
      multiplicity, exactly the rows on which it holds. */
  lemma {:induction false} FilterMeans(w: Where, rows: seq<Row>)
    ensures FilterRows(w, rows).Ok? <==> NoErrors(w, rows)
    ensures FilterRows(w, rows).Ok? ==> forall row ::
              multiset(FilterRows(w, rows).value)[row] == if Test(w, row) == Ok(true) then multiset(rows)[row] else 0
    decreases |rows|
  {
    if rows != [] {
      var n := |rows| - 1;
      assert rows == rows[..n] + [rows[n]];
      FilterMeans(w, rows[..n]);
    }
  }

  predicate Wanted(w: Where, holds: bool, row: Row) {
    (Test(w, row) == Ok(true)) == holds
  }

  /** picked is what stands in rows at the given places, in the order of rows. */
  ghost predicate At<T>(rows: seq<T>, picked: seq<T>, places: seq<nat>) {
    && |places| == |picked|
    && (forall i :: 0 <= i < |places| ==> places[i] < |rows| && rows[places[i]] == picked[i])
    && (forall i, j :: 0 <= i < j < |places| ==> places[i] < places[j])
  }

  lemma AtTaken<T>(rows: seq<T>, row: T, picked: seq<T>, places: seq<nat>)
    requires At(rows, picked, places)
    ensures At(rows + [row], picked, places) && At(rows + [row], picked + [row], places + [|rows|])
  {
  }

  /** picked are, in table order, all the rows on which the clause holds, or all the others. */
  ghost predicate Picks(w: Where, holds: bool, rows: seq<Row>, picked: seq<Row>, places: seq<nat>) {
    At(rows, picked, places) && forall k: nat :: k < |rows| ==> (k in places <==> Wanted(w, holds, rows[k]))
  }

  lemma PicksOneMore(w: Where, holds: bool, rows: seq<Row>, row: Row, picked: seq<Row>, places: seq<nat>)
    requires Picks(w, holds, rows, picked, places)
    ensures Wanted(w, holds, row) ==> Picks(w, holds, rows + [row], picked + [row], places + [|rows|])
    ensures !Wanted(w, holds, row) ==> Picks(w, holds, rows + [row], picked, places)
  {
    AtTaken(rows, row, picked, places);
    var more := rows + [row];
    forall k: nat | k < |more|
      ensures k in places + [|rows|] <==> k == |rows| || Wanted(w, holds, more[k])
      ensures k in places <==> k < |rows| && Wanted(w, holds, more[k])
    {
      if k < |rows| { assert more[k] == rows[k]; }
    }
  }

  lemma FilterNext(w: Where, rows: seq<Row>, n: nat)
    requires |rows| == n + 1 && Test(w, rows[n]).Ok? && FilterRows(w, rows[..n]).Ok?
    ensures Wanted(w, true, rows[n]) ==> FilterRows(w, rows) == Ok(FilterRows(w, rows[..n]).value + [rows[n]])
    ensures !Wanted(w, true, rows[n]) ==> FilterRows(w, rows) == FilterRows(w, rows[..n])
  {
  }

  lemma FilterPicksNext(w: Where, rows: seq<Row>, n: nat, places: seq<nat>) returns (more: seq<nat>)
    requires |rows| == n + 1 && Test(w, rows[n]).Ok? && FilterRows(w, rows[..n]).Ok?
    requires Picks(w, true, rows[..n], FilterRows(w, rows[..n]).value, places)
    ensures FilterRows(w, rows).Ok? && Picks(w, true, rows, FilterRows(w, rows).value, more)
  {
    FilterNext(w, rows, n);
    PicksOneMore(w, true, rows[..n], rows[n], FilterRows(w, rows[..n]).value, places);
    assert rows == rows[..n] + [rows[n]];
    more := if Wanted(w, true, rows[n]) then places + [n] else places;
  }

  /** Filtering keeps the order of the table. */
  lemma {:induction false} FilterKeepsOrder(w: Where, rows: seq<Row>) returns (places: seq<nat>)
    requires NoErrors(w, rows)
    ensures FilterRows(w, rows).Ok? && Picks(w, true, rows, FilterRows(w, rows).value, places)
    decreases |rows|
  {
    places := [];
    if rows != [] {
      var n := |rows| - 1;
      assert rows[n] in rows;
      places := FilterKeepsOrder(w, rows[..n]);
      places := FilterPicksNext(w, rows, n, places);
    }
  }

  // ----- SELECT -----

  datatype Select = Select(columns: seq<Expression>, where_: Where, orderBy: seq<OrderKey>, limit: int, offset: int)

  /** The selected column names; expressions that are not column names are passed over. */
  function SelectColumns(schema: Schema, columns: seq<Expression>): Result<seq<string>> {
    if |columns| == 1 then
      match columns[0]
      case Column(name) =>
        if name == "*" then Ok(NamesOf(schema.columns))
        else if name in schema.names then Ok([name]) else Err(NoSuchColumn)
      case _ => Ok([])
    else NamedColumns(schema, columns)
  }

  function NamesOf(columns: seq<ColumnDef>): seq<string> {
    if columns == [] then [] else NamesOf(columns[..|columns| - 1]) + [columns[|columns| - 1].name]
  }

  function NamedColumns(schema: Schema, columns: seq<Expression>): Result<seq<string>>
    decreases |columns|
  {
    if columns == [] then Ok([])
    else match NamedColumns(schema, columns[..|columns| - 1])
      case Err(e) => Err(e)
      case Ok(names) =>
        match columns[|columns| - 1]
        case Column(name) => if name in schema.names then Ok(names + [name]) else Err(NoSuchColumn)
        case _ => Ok(names)
  }

  /** The indices that the slicing loop visits: limit 0 is empty, a negative limit is none. */
  function Window(n: nat, limit: int, offset: nat): (w: (nat, nat))
    ensures w.0 <= w.1 <= n
  {
    var end := if limit > 0 then offset + limit else if limit == 0 then offset else n;
    if offset >= n || offset >= end then (0, 0) else (offset, if end < n then end else n)
  }

  function Project(names: seq<string>, row: Row): Row {
    map c | c in names && c in row :: row[c]
  }

  function ProjectAll(names: seq<string>, rows: seq<Row>): (r: seq<Row>)
    ensures |r| == |rows| && forall i :: 0 <= i < |r| ==> r[i] == Project(names, rows[i])
  {
    seq(|rows|, i requires 0 <= i < |rows| => Project(names, rows[i]))
  }

  /** The rows in the order in which they are sliced: as filtered, or sorted by the sorter. */
  function Arrange(sort: Sorter, names: set<string>, keys: seq<OrderKey>, rows: seq<Row>): Option<seq<Row>> {
    if keys == [] then Some(rows) else sort(names, keys, rows)
  }

  /** The slicing and projecting at the end of execute_select.  With a negative offset the loop
      indexes below the start of the rows, unless the limit is 0. */
  function Answer(names: seq<string>, arranged: seq<Row>, limit: int, offset: int): Result<seq<Row>> {
    if offset < 0 then (if limit == 0 then Ok([]) else Err(NegativeOffset))
    else
      var (lo, hi) := Window(|arranged|, limit, offset);
      Ok(ProjectAll(names, arranged[lo..hi]))
  }

  /** execute_select on a table. */
  function SelectRows(sort: Sorter, t: Table, q: Select): Result<seq<Row>> {
    match SelectColumns(t.schema, q.columns)
    case Err(e) => Err(e)
    case Ok(names) =>
      match FilterRows(q.where_, t.rows)
      case Err(e) => Err(e)
      case Ok(kept) =>
        match Arrange(sort, t.schema.names, q.orderBy, kept)
        case None => Err(NoSuchColumn)
        case Some(arranged) => Answer(names, arranged, q.limit, q.offset)
  }

  /** The clause holds on the row: there is none, or it answers true. */
  predicate ClauseHolds(w: Where, row: Row) {
    match w case NoWhere => true case Filter(holds) => holds(row) == Ok(true)
  }

  /** out has exactly those of the names that row has, with the values of row. */
  ghost predicate IsProjection(names: seq<string>, row: Row, out: Row) {
    forall c :: (c in out <==> c in names && c in row) && (c in out ==> out[c] == row[c])
  }

  /** How many of n rows are left by an offset and a limit; a negative limit is none. */
  function SliceSize(n: nat, limit: int, offset: nat): nat {
    var left := if offset < n then n - offset else 0;
    if 0 <= limit < left then limit else left
  }

  /** The result that SELECT means: the projection of the OFFSET/LIMIT slice of a sorted
      permutation of the rows for which the clause holds; without ORDER BY, in table order. */
  ghost predicate IsAnswer(t: Table, q: Select, names: seq<string>, arranged: seq<Row>, result: seq<Row>)
    requires q.offset >= 0
  {
    && (forall row :: multiset(arranged)[row] == if ClauseHolds(q.where_, row) then multiset(t.rows)[row] else 0)
    && SortedBy(Lambda(q.orderBy), arranged)
    && (q.orderBy == [] ==> exists places :: InOrder(q.where_, t.rows, arranged, places))
    && |result| == SliceSize(|arranged|, q.limit, q.offset)
    && forall i :: 0 <= i < |result| ==>
         q.offset + i < |arranged| && IsProjection(names, arranged[q.offset + i], result[i])
  }

  /** picked are the rows on which the clause holds, in the order of the table. */
  ghost predicate InOrder(w: Where, rows: seq<Row>, picked: seq<Row>, places: seq<nat>) {
    At(rows, picked, places) && forall k: nat :: k < |rows| ==> (k in places <==> ClauseHolds(w, rows[k]))
  }

  /** OFFSET and LIMIT, declaratively: drop, then take. */
  function Slice(rows: seq<Row>, limit: int, offset: nat): seq<Row> {
    var dropped := if offset <= |rows| then rows[offset..] else [];
    if limit < 0 || limit > |dropped| then dropped else dropped[..limit]
  }

  lemma WindowIsSlice(rows: seq<Row>, limit: int, offset: nat)
    ensures var (lo, hi) := Window(|rows|, limit, offset); rows[lo..hi] == Slice(rows, limit, offset)
  {
  }

  lemma SliceMeans(rows: seq<Row>, limit: int, offset: nat)
    ensures |Slice(rows, limit, offset)| == SliceSize(|rows|, limit, offset)
    ensures forall i :: 0 <= i < |Slice(rows, limit, offset)| ==>
              offset + i < |rows| && Slice(rows, limit, offset)[i] == rows[offset + i]
  {
  }

  lemma ProjectMeans(names: seq<string>, row: Row)
    ensures IsProjection(names, row, Project(names, row))
  {
  }

  lemma NoKeysSorted(rows: seq<Row>)
    ensures SortedBy(Lambda([]), rows)
  {
  }

  lemma ArrangeSorts(sort: Sorter, names: set<string>, keys: seq<OrderKey>, rows: seq<Row>)
    requires IsStdSort(sort) && !MayRaise(names, keys, rows) && StrictWeakOrder(Lambda(keys), Elements(rows))
    ensures var r := Arrange(sort, names, keys, rows);
      r.Some? && SortedBy(Lambda(keys), r.value) && multiset(r.value) == multiset(rows)
  {
    assert SortsWell(names, keys, rows, sort(names, keys, rows));
    NoKeysSorted(rows);
  }

  /** The rows that SELECT sorts, if the clause raises no error. */
  function KeptRows(t: Table, q: Select): seq<Row> {
    match FilterRows(q.where_, t.rows) case Ok(kept) => kept case Err(_) => []
  }

  lemma SelectIsSlice(sort: Sorter, t: Table, q: Select, arranged: seq<Row>)
    requires q.offset >= 0 && SelectColumns(t.schema, q.columns).Ok? && FilterRows(q.where_, t.rows).Ok?
    requires Arrange(sort, t.schema.names, q.orderBy, KeptRows(t, q)) == Some(arranged)
    ensures SelectRows(sort, t, q)
      == Ok(ProjectAll(SelectColumns(t.schema, q.columns).value, Slice(arranged, q.limit, q.offset)))
  {
    WindowIsSlice(arranged, q.limit, q.offset);
  }

  /** SELECT, for every sorter that keeps the promise of std::sort: when the clause fails on no
      row and the comparator raises no error and is a strict weak order on the rows that remain
      (for which WeakOrderIff says when that is so), the answer is the one meant. */
  lemma SelectMeans(sort: Sorter, t: Table, q: Select)
    requires IsStdSort(sort) && NoErrors(q.where_, t.rows) && q.offset >= 0
    requires !MayRaise(t.schema.names, q.orderBy, KeptRows(t, q))
    requires StrictWeakOrder(Lambda(q.orderBy), Elements(KeptRows(t, q)))
    requires SelectColumns(t.schema, q.columns).Ok?
    ensures SelectRows(sort, t, q).Ok?
    ensures exists arranged ::
      IsAnswer(t, q, SelectColumns(t.schema, q.columns).value, arranged, SelectRows(sort, t, q).value)
  {
    FilterMeans(q.where_, t.rows);
    ArrangeSorts(sort, t.schema.names, q.orderBy, KeptRows(t, q));
    var arranged := Arrange(sort, t.schema.names, q.orderBy, KeptRows(t, q)).value;
    SelectIsSlice(sort, t, q, arranged);
    AnswerArranged(t, q, arranged);
    AnswerSliced(SelectColumns(t.schema, q.columns).value, arranged, q.limit, q.offset);
    assert IsAnswer(t, q, SelectColumns(t.schema, q.columns).value, arranged, SelectRows(sort, t, q).value);
  }

  lemma AnswerSliced(names: seq<string>, arranged: seq<Row>, limit: int, offset: nat)
    ensures var result := ProjectAll(names, Slice(arranged, limit, offset));
      && |result| == SliceSize(|arranged|, limit, offset)
      && forall i :: 0 <= i < |result| ==>
           offset + i < |arranged| && IsProjection(names, arranged[offset + i], result[i])
  {
    var sliced := Slice(arranged, limit, offset);
    SliceMeans(arranged, limit, offset);
    forall i | 0 <= i < |sliced| ensures IsProjection(names, sliced[i], ProjectAll(names, sliced)[i]) {
      ProjectMeans(names, sliced[i]);
    }
  }

  lemma TestMeans(w: Where, row: Row)
    ensures Test(w, row) == Ok(true) <==> ClauseHolds(w, row)
    ensures w.NoWhere? ==> Test(w, row).Ok?
    ensures w.Filter? ==> Test(w, row) == w.holds(row)
  {
  }

  lemma AnswerArranged(t: Table, q: Select, arranged: seq<Row>)
    requires NoErrors(q.where_, t.rows) && multiset(arranged) == multiset(KeptRows(t, q))
    requires q.orderBy == [] ==> arranged == KeptRows(t, q)
    ensures forall row ::
      multiset(arranged)[row] == if ClauseHolds(q.where_, row) then multiset(t.rows)[row] else 0
    ensures q.orderBy == [] ==> exists places :: InOrder(q.where_, t.rows, arranged, places)
  {
    FilterMeans(q.where_, t.rows);
    forall row ensures Test(q.where_, row) == Ok(true) <==> ClauseHolds(q.where_, row) { TestMeans(q.where_, row); }
    var places := FilterKeepsOrder(q.where_, t.rows);
    assert q.orderBy == [] ==> InOrder(q.where_, t.rows, arranged, places);
  }

  /** An ORDER BY column that does not exist is reported for certain if it is the first and there
      are two rows to compare; and no error is reported for one that could not be reached. */
  lemma MissingKeyColumn(sort: Sorter, t: Table, q: Select)
    requires IsStdSort(sort) && SelectColumns(t.schema, q.columns).Ok? && FilterRows(q.where_, t.rows).Ok?
    ensures MustRaise(t.schema.names, q.orderBy, KeptRows(t, q)) ==> SelectRows(sort, t, q) == Err(NoSuchColumn)
    ensures SelectRows(sort, t, q) == Err(NoSuchColumn) ==> MayRaise(t.schema.names, q.orderBy, KeptRows(t, q))
  {
    var kept := KeptRows(t, q);
    assert SortsWell(t.schema.names, q.orderBy, kept, sort(t.schema.names, q.orderBy, kept));
  }

  // ----- Pages -----

  /** Page k, of p rows, of a query. */
  function PageOf(q: Select, p: nat, k: nat): Select {
    q.(limit := p, offset := k * p)
  }

  /** The rows of the first m pages, one page after the other. */
  ghost function Pages(sort: Sorter, t: Table, q: Select, p: nat, m: nat): seq<Row>
    requires forall k: nat :: SelectRows(sort, t, PageOf(q, p, k)).Ok?
  {
    if m == 0 then [] else Pages(sort, t, q, p, m - 1) + SelectRows(sort, t, PageOf(q, p, m - 1)).value
  }

  lemma PageSucceeds(sort: Sorter, t: Table, q: Select, p: nat, k: nat)
    requires SelectRows(sort, t, q.(limit := -1, offset := 0)).Ok?
    ensures SelectRows(sort, t, PageOf(q, p, k)).Ok?
  {
    assert k * p >= 0;
  }

  function Front(rows: seq<Row>, n: nat): seq<Row> {
    if n <= |rows| then rows[..n] else rows
  }

  lemma FrontGrows(rows: seq<Row>, n: nat, p: nat)
    ensures Front(rows, n) + Slice(rows, p, n) == Front(rows, n + p)
  {
  }

  /** Successive pages, put together, are the unlimited answer, cut where the pages end. */
  lemma {:induction false} PagesConcatenate(sort: Sorter, t: Table, q: Select, p: nat, m: nat)
    requires SelectRows(sort, t, q.(limit := -1, offset := 0)).Ok?
    ensures forall k: nat :: SelectRows(sort, t, PageOf(q, p, k)).Ok?
    ensures var all := SelectRows(sort, t, q.(limit := -1, offset := 0)).value;
      Pages(sort, t, q, p, m) == Front(all, m * p)
    decreases m
  {
    forall k: nat ensures SelectRows(sort, t, PageOf(q, p, k)).Ok? { PageSucceeds(sort, t, q, p, k); }
    var all := SelectRows(sort, t, q.(limit := -1, offset := 0)).value;
    if m == 0 {
      assert 0 * p == 0;
    } else {
      PagesConcatenate(sort, t, q, p, m - 1);
      assert m * p == (m - 1) * p + p;
      OnePage(sort, t, q, p, (m - 1) * p);
      FrontGrows(all, (m - 1) * p, p);
    }
  }

  lemma OnePage(sort: Sorter, t: Table, q: Select, p: nat, offset: nat)
    requires SelectRows(sort, t, q.(limit := -1, offset := 0)).Ok?
    ensures var all := SelectRows(sort, t, q.(limit := -1, offset := 0)).value;
      var page := SelectRows(sort, t, q.(limit := p, offset := offset));
      page.Ok? && page.value == Slice(all, p, offset)
  {
    var names := SelectColumns(t.schema, q.columns).value;
    var arranged := Arrange(sort, t.schema.names, q.orderBy, FilterRows(q.where_, t.rows).value).value;
    var all := SelectRows(sort, t, q.(limit := -1, offset := 0)).value;
    assert all == ProjectAll(names, arranged) by { assert arranged[0..|arranged|] == arranged; }
    var (lo, hi) := Window(|arranged|, p, offset);
    assert ProjectAll(names, arranged[lo..hi]) == all[lo..hi];
  }

  // ----- INSERT -----

  /** The conversion of a literal: a string literal is converted as VARCHAR. */
  function ConvertLiteral(env: Env, e: Expression): Result<Value> {
    match e
    case Literal(text, kind) => env.convert(text, if kind == "STRING" then "VARCHAR" else kind)
    case _ => Err(NotLiteral)
  }

  /** The values under the named columns, left to right. */
  function NamedValues(env: Env, schema: Schema, names: seq<string>, values: seq<Expression>): Result<Row>
    requires |names| == |values|
    decreases |names|
  {
    if names == [] then Ok(map[])
    else
      var n := |names| - 1;
      match NamedValues(env, schema, names[..n], values[..n])
      case Err(e) => Err(e)
      case Ok(row) =>
        if names[n] !in schema.names then Err(NoSuchColumn)
        else match ConvertLiteral(env, values[n])
          case Err(e) => Err(e)
          case Ok(v) => Ok(row[names[n] := v])
  }

  /** Defaults for the columns not named. */
  function AddDefaults(env: Env, columns: seq<ColumnDef>, row: Row): Result<Row>
    decreases |columns|
  {
    if columns == [] then Ok(row)
    else
      match AddDefaults(env, columns[..|columns| - 1], row)
      case Err(e) => Err(e)
      case Ok(r) =>
        var c := columns[|columns| - 1];
        if c.name in r then Ok(r)
        else if c.default != "" then
          (match env.convert(c.default, c.kind) case Err(e) => Err(e) case Ok(v) => Ok(r[c.name := v]))
        else if !c.notNull then Ok(r[c.name := Null])
        else Err(NotNullViolated)
  }

  /** The new row for one list of values, before its constraints are checked. */
  function BuildRow(env: Env, schema: Schema, names: seq<string>, values: seq<Expression>): Result<Row> {
    if names != [] then
      if |values| != |names| then Err(ColumnCount)
      else match NamedValues(env, schema, names, values)
        case Err(e) => Err(e)
        case Ok(row) => AddDefaults(env, schema.columns, row)
    else if |values| != |schema.columns| then Err(ColumnCount)
    else NamedValues(env, schema, NamesOf(schema.columns), NamedLength(schema.columns, values))
  }

  /** The values themselves, as many as there are column names. */
  function NamedLength(columns: seq<ColumnDef>, values: seq<Expression>): (r: seq<Expression>)
    requires |values| == |columns|
    ensures r == values && |r| == |NamesOf(columns)|
  {
    NamesLength(columns);
    values
  }

  lemma {:induction false} NamesLength(columns: seq<ColumnDef>)
    ensures |NamesOf(columns)| == |columns|
    decreases |columns|
  {
    if columns != [] { NamesLength(columns[..|columns| - 1]); }
  }

  predicate NullViolation(schema: Schema, row: Row) {
    exists c :: c in schema.notNull && c in row && row[c].Null?
  }

  /** Another row has the same printed, non-null value in the column. */
  predicate Clash(env: Env, column: string, a: Row, b: Row) {
    column in a && column in b && !a[column].Null? && !b[column].Null? && env.show(a[column]) == env.show(b[column])
  }

  predicate UniqueViolation(env: Env, schema: Schema, rows: seq<Row>, row: Row) {
    exists c, i :: c in schema.unique && 0 <= i < |rows| && Clash(env, c, row, rows[i])
  }

  /** What validate_row says of a row and the stored rows. */
  function Validated(env: Env, schema: Schema, rows: seq<Row>, row: Row): Result<()> {
    if NullViolation(schema, row) then Err(NotNullViolated)
    else if UniqueViolation(env, schema, rows, row) then Err(UniqueViolated)
    else Ok(())
  }

  /** One round of the loop of execute_insert: the row to append, or the error. */
  function InsertOne(env: Env, t: Table, names: seq<string>, values: seq<Expression>): Result<Row> {
    match BuildRow(env, t.schema, names, values)
    case Err(e) => Err(e)
    case Ok(row) =>
      match Validated(env, t.schema, t.rows, row)
      case Err(e) => Err(e)
      case Ok(_) => Ok(row)
  }

  /** execute_insert on a table: rows are appended until one fails; those before it stay. */
  function InsertAll(env: Env, t: Table, names: seq<string>, values: seq<seq<Expression>>): (Table, Result<nat>)
    decreases |values|
  {
    if values == [] then (t, Ok(0))
    else
      var n := |values| - 1;
      var (t1, r) := InsertAll(env, t, names, values[..n]);
      match r
      case Err(e) => (t1, Err(e))
      case Ok(count) =>
        match InsertOne(env, t1, names, values[n])
        case Err(e) => (t1, Err(e))
        case Ok(row) => (t1.(rows := t1.rows + [row]), Ok(count + 1))
  }

  // ----- DELETE -----

  /** The rows for which the clause does not hold, in order. */
  function Remaining(w: Where, rows: seq<Row>): seq<Row>
    decreases |rows|
  {
    if rows == [] then []
    else
      var n := |rows| - 1;
      Remaining(w, rows[..n]) + if Test(w, rows[n]) == Ok(true) then [] else [rows[n]]
  }

  /** The first row on which the clause raises an error, or the number of rows. */
  function FirstError(w: Where, rows: seq<Row>): (e: nat)
    ensures e <= |rows| && (e < |rows| ==> Test(w, rows[e]).Err?)
    ensures forall i :: 0 <= i < e ==> Test(w, rows[i]).Ok?
    decreases |rows|
  {
    if rows == [] || Test(w, rows[0]).Err? then 0 else 1 + FirstError(w, rows[1..])
  }

  lemma {:induction false} RemainingIsAll(w: Where, rows: seq<Row>)
    ensures |Remaining(w, rows)| <= |rows|
    ensures |Remaining(w, rows)| == |rows| <==> forall i :: 0 <= i < |rows| ==> Test(w, rows[i]) != Ok(true)
    decreases |rows|
  {
    if rows != [] {
      var n := |rows| - 1;
      RemainingIsAll(w, rows[..n]);
      assert forall i :: 0 <= i < n ==> rows[..n][i] == rows[i];
    }
  }

  /** The assignment of an element to an earlier place, which leaves a husk in its own. */
  function Moved<T>(s: seq<T>, from: nat, to: nat, husk: T): (r: seq<T>)
    requires to <= from < |s|
    ensures |r| == |s|
  {
    if to == from then s else s[to := s[from]][from := husk]
  }

  /** The vector while std::remove_if runs, after i rows: each row to keep is moved to the end of
      those kept before it, once there is a gap. */
  function Compacted(env: Env, w: Where, rows: seq<Row>, i: nat): (r: seq<Row>)
    requires i <= |rows|
    ensures |r| == |rows|
    decreases i
  {
    if i == 0 then rows
    else
      RemainingIsAll(w, rows[..i - 1]);
      var before := Compacted(env, w, rows, i - 1);
      if Test(w, rows[i - 1]) == Ok(true) then before
      else Moved(before, i - 1, |Remaining(w, rows[..i - 1])|, env.movedFrom(rows[i - 1]))
  }

  /** r is s from place i on, and has the kept elements in front. */
  ghost predicate Standing<T>(r: seq<T>, s: seq<T>, kept: seq<T>, i: nat) {
    |r| == |s| && |kept| <= i <= |s| && kept <= r && r[i..] == s[i..]
  }

  lemma StandingNext<T>(r: seq<T>, s: seq<T>, kept: seq<T>, i: nat, husk: T)
    requires Standing(r, s, kept, i) && i < |s|
    ensures r[i] == s[i] && Standing(r, s, kept, i + 1)
    ensures Standing(Moved(r, i, |kept|, husk), s, kept + [s[i]], i + 1)
  {
    assert r[i] == r[i..][0] && s[i] == s[i..][0];
    assert r[i + 1..] == r[i..][1..] && s[i + 1..] == s[i..][1..];
    var m := Moved(r, i, |kept|, husk);
    assert m[i + 1..] == r[i + 1..];
    assert m[..|kept| + 1] == kept + [s[i]];
  }

  lemma RemainingNext(w: Where, rows: seq<Row>, i: nat)
    requires i < |rows|
    ensures Remaining(w, rows[..i + 1])
         == Remaining(w, rows[..i]) + if Test(w, rows[i]) == Ok(true) then [] else [rows[i]]
  {
    assert rows[..i + 1][..i] == rows[..i];
  }

  /** The rows from i on are untouched, and those to keep among the others stand in front. */
  lemma {:induction false} CompactedStands(env: Env, w: Where, rows: seq<Row>, i: nat)
    requires i <= |rows|
    ensures Standing(Compacted(env, w, rows, i), rows, Remaining(w, rows[..i]), i)
    decreases i
  {
    if i > 0 {
      CompactedStands(env, w, rows, i - 1);
      RemainingNext(w, rows, i - 1);
      var husk := env.movedFrom(rows[i - 1]);
      StandingNext(Compacted(env, w, rows, i - 1), rows, Remaining(w, rows[..i - 1]), i - 1, husk);
    }
  }

  /** execute_delete on the rows of a table: an error of the clause leaves the vector as
      std::remove_if had it at that moment; else the rest of it is erased. */
  function AfterDelete(env: Env, w: Where, rows: seq<Row>): seq<Row> {
    if FirstError(w, rows) < |rows| then Compacted(env, w, rows, FirstError(w, rows)) else Remaining(w, rows)
  }

  /** Row i was moved: it is kept, and there is a row to delete before it. */
  predicate IsMoved(w: Where, rows: seq<Row>, i: nat)
    requires i < |rows|
  {
    Test(w, rows[i]) != Ok(true) && exists j :: 0 <= j < i && Test(w, rows[j]) == Ok(true)
  }

  /** No error of the clause interrupts the moving of rows. */
  predicate DeletesCleanly(w: Where, rows: seq<Row>) {
    FirstError(w, rows) == |rows| || forall i: nat :: i < FirstError(w, rows) ==> !IsMoved(w, rows, i)
  }

  /** The number of rows deleted, or the clause's first error. */
  function DeleteAnswer(w: Where, rows: seq<Row>): Result<nat> {
    var e := FirstError(w, rows);
    if e < |rows| then Err(Test(w, rows[e]).error) else RemainingIsAll(w, rows); Ok(|rows| - |Remaining(w, rows)|)
  }

  // ----- The constraints -----

  ghost predicate RowOk(schema: Schema, row: Row) {
    row.Keys == schema.names && !NullViolation(schema, row)
  }

  ghost predicate NoClash(env: Env, schema: Schema, rows: seq<Row>) {
    forall c, i, j :: c in schema.unique && 0 <= i < j < |rows| ==> !Clash(env, c, rows[j], rows[i])
  }

  /** Every row has exactly the schema's columns, no NOT NULL column is null, and no two rows
      share a printed non-null value in a UNIQUE column. */
  ghost predicate TableOk(env: Env, t: Table) {
    && t.schema == SchemaOf(t.schema.columns)
    && (forall i :: 0 <= i < |t.rows| ==> RowOk(t.schema, t.rows[i]))
    && NoClash(env, t.schema, t.rows)
  }

  lemma {:induction false} NamedValuesKeys(env: Env, schema: Schema, names: seq<string>, values: seq<Expression>)
    requires |names| == |values| && NamedValues(env, schema, names, values).Ok?
    ensures NamedValues(env, schema, names, values).value.Keys == Elements(names) <= schema.names
    decreases |names|
  {
    if names != [] {
      var n := |names| - 1;
      assert names == names[..n] + [names[n]];
      NamedValuesKeys(env, schema, names[..n], values[..n]);
    }
  }

  lemma {:induction false} DefaultsKeys(env: Env, columns: seq<ColumnDef>, row: Row)
    requires AddDefaults(env, columns, row).Ok?
    ensures AddDefaults(env, columns, row).value.Keys == row.Keys + Elements(NamesOf(columns))
    decreases |columns|
  {
    if columns != [] {
      var init, c := columns[..|columns| - 1], columns[|columns| - 1];
      DefaultsKeys(env, init, row);
      assert Elements(NamesOf(columns)) == Elements(NamesOf(init)) + {c.name};
    }
  }

  lemma {:induction false} NamesAreNames(columns: seq<ColumnDef>)
    ensures Elements(NamesOf(columns)) == set c | c in columns :: c.name
    decreases |columns|
  {
    if columns != [] {
      var init, c := columns[..|columns| - 1], columns[|columns| - 1];
      assert columns == init + [c];
      NamesAreNames(init);
      assert (set d | d in columns :: d.name) == (set d | d in init :: d.name) + {c.name};
    }
  }

  lemma BuiltRowHasColumns(env: Env, schema: Schema, names: seq<string>, values: seq<Expression>)
    requires schema == SchemaOf(schema.columns) && BuildRow(env, schema, names, values).Ok?
    ensures BuildRow(env, schema, names, values).value.Keys == schema.names
  {
    if names != [] {
      NamedValuesKeys(env, schema, names, values);
      DefaultsKeys(env, schema.columns, NamedValues(env, schema, names, values).value);
    } else {
      NamesLength(schema.columns);
      NamedValuesKeys(env, schema, NamesOf(schema.columns), values);
    }
    NamesAreNames(schema.columns);
  }

  /** Place i is the last at which its name is given. */
  predicate LastGiven(names: seq<string>, i: nat) {
    i < |names| && forall j :: i < j < |names| ==> names[j] != names[i]
  }

  lemma {:induction false} NamedValuesMean(env: Env, schema: Schema, names: seq<string>, values: seq<Expression>,
                                           i: nat)
    requires |names| == |values| && NamedValues(env, schema, names, values).Ok? && LastGiven(names, i)
    ensures var row := NamedValues(env, schema, names, values).value;
      names[i] in row && ConvertLiteral(env, values[i]) == Ok(row[names[i]])
    decreases |names|
  {
    var n := |names| - 1;
    if i < n {
      forall j | i < j < n ensures names[..n][j] != names[..n][i] { assert names[..n][j] == names[j]; }
      NamedValuesMean(env, schema, names[..n], values[..n], i);
      assert values[..n][i] == values[i] && names[n] != names[i];
    }
  }

  lemma {:induction false} DefaultsMean(env: Env, columns: seq<ColumnDef>, row: Row, name: string)
    requires AddDefaults(env, columns, row).Ok?
    ensures var full := AddDefaults(env, columns, row).value;
      && (name in row ==> name in full && full[name] == row[name])
      && (name in full && name !in row ==> exists c :: c in columns && c.name == name && IsDefault(env, c, full[name]))
    decreases |columns|
  {
    if columns != [] {
      var init, c := columns[..|columns| - 1], columns[|columns| - 1];
      assert columns == init + [c];
      DefaultsMean(env, init, row, name);
    }
  }

  predicate IsDefault(env: Env, c: ColumnDef, v: Value) {
    if c.default != "" then env.convert(c.default, c.kind) == Ok(v) else v == Null && !c.notNull
  }

  /** The value is what the literal converts to: a STRING as VARCHAR, anything else as its own type. */
  predicate Converts(env: Env, e: Expression, v: Value) {
    match e
    case Literal(text, kind) =>
      if kind == "STRING" then env.convert(text, "VARCHAR") == Ok(v) else env.convert(text, kind) == Ok(v)
    case _ => false
  }

  /** The columns that the values are for. */
  function GivenNames(schema: Schema, names: seq<string>): seq<string> {
    if names == [] then NamesOf(schema.columns) else names
  }

  /** What a new row holds: under a given column its literal (the last, if the column is named
      twice), under another the default of a column of that name. */
  lemma BuiltRowMeans(env: Env, schema: Schema, names: seq<string>, values: seq<Expression>, i: nat, other: string)
    requires BuildRow(env, schema, names, values).Ok?
    ensures |values| == |GivenNames(schema, names)|
    ensures LastGiven(GivenNames(schema, names), i) ==>
      var row, name := BuildRow(env, schema, names, values).value, GivenNames(schema, names)[i];
      name in row && Converts(env, values[i], row[name])
    ensures var row := BuildRow(env, schema, names, values).value;
      other in row && other !in GivenNames(schema, names) ==>
        exists c :: c in schema.columns && c.name == other && IsDefault(env, c, row[other])
  {
    NamesLength(schema.columns);
    var given := GivenNames(schema, names);
    var row := NamedValues(env, schema, given, values).value;
    NamedValuesKeys(env, schema, given, values);
    if LastGiven(given, i) {
      NamedValuesMean(env, schema, given, values, i);
      if names != [] { DefaultsMean(env, schema.columns, row, given[i]); }
    }
    if names != [] { DefaultsMean(env, schema.columns, row, other); }
  }

  lemma InsertOneKeeps(env: Env, t: Table, names: seq<string>, values: seq<Expression>)
    requires TableOk(env, t) && InsertOne(env, t, names, values).Ok?
    ensures TableOk(env, t.(rows := t.rows + [InsertOne(env, t, names, values).value]))
  {
    BuiltRowHasColumns(env, t.schema, names, values);
  }

  /** Also when it fails part way, INSERT keeps the constraints. */
  lemma {:induction false} InsertKeeps(env: Env, t: Table, names: seq<string>, values: seq<seq<Expression>>)
    requires TableOk(env, t)
    ensures TableOk(env, InsertAll(env, t, names, values).0)
    ensures t.rows <= InsertAll(env, t, names, values).0.rows
    ensures var (t', r) := InsertAll(env, t, names, values);
      match r case Ok(n) => n == |values| && |t'.rows| == |t.rows| + n
              case Err(_) => |t'.rows| < |t.rows| + |values|
    decreases |values|
  {
    if values != [] {
      var n := |values| - 1;
      InsertKeeps(env, t, names, values[..n]);
      var (t1, r) := InsertAll(env, t, names, values[..n]);
      if r.Ok? && InsertOne(env, t1, names, values[n]).Ok? {
        InsertOneKeeps(env, t1, names, values[n]);
      }
    }
  }

  /** DELETE leaves the other rows, in order. */
  lemma {:induction false} RemainingPlaces(w: Where, rows: seq<Row>) returns (places: seq<nat>)
    ensures Picks(w, false, rows, Remaining(w, rows), places)
    decreases |rows|
  {
    places := [];
    if rows != [] {
      var n := |rows| - 1;
      assert rows == rows[..n] + [rows[n]];
      places := RemainingPlaces(w, rows[..n]);
      PicksOneMore(w, false, rows[..n], rows[n], Remaining(w, rows[..n]), places);
      if Wanted(w, false, rows[n]) { places := places + [n]; }
    }
  }

  lemma DeleteKeeps(env: Env, t: Table, w: Where)
    requires TableOk(env, t)
    ensures TableOk(env, t.(rows := Remaining(w, t.rows)))
  {
    var left := Remaining(w, t.rows);
    var places := RemainingPlaces(w, t.rows);
    forall i | 0 <= i < |left| ensures RowOk(t.schema, left[i]) { assert left[i] == t.rows[places[i]]; }
    forall c, i, j | c in t.schema.unique && 0 <= i < j < |left| ensures !Clash(env, c, left[j], left[i]) {
      assert left[i] == t.rows[places[i]] && left[j] == t.rows[places[j]];
    }
  }

  /** The step of std::remove_if at row i. */
  lemma CompactedStep(env: Env, w: Where, rows: seq<Row>, i: nat)
    requires i < |rows|
    ensures var kept, before := |Remaining(w, rows[..i])|, Compacted(env, w, rows, i);
      && kept <= i && before[i] == rows[i]
      && Compacted(env, w, rows, i + 1)
           == (if Test(w, rows[i]) == Ok(true) then before else Moved(before, i, kept, env.movedFrom(rows[i])))
      && |Remaining(w, rows[..i + 1])| == (if Test(w, rows[i]) == Ok(true) then kept else kept + 1)
  {
    CompactedStands(env, w, rows, i);
    RemainingNext(w, rows, i);
    StandingNext(Compacted(env, w, rows, i), rows, Remaining(w, rows[..i]), i, env.movedFrom(rows[i]));
  }

  /** When all rows have been passed, those to keep stand in front. */
  lemma CompactedWhole(env: Env, w: Where, rows: seq<Row>)
    ensures rows[..|rows|] == rows && Remaining(w, rows) <= Compacted(env, w, rows, |rows|)
  {
    assert rows[..|rows|] == rows;
    CompactedStands(env, w, rows, |rows|);
  }

  /** It moves the row, leaving what a move leaves, or leaves the vector as it is. */
  lemma CompactedMoves(env: Env, w: Where, rows: seq<Row>, i: nat)
    requires i < |rows|
    ensures var before, after := Compacted(env, w, rows, i), Compacted(env, w, rows, i + 1);
      if IsMoved(w, rows, i) then after[i] == env.movedFrom(rows[i]) else after == before
  {
    CompactedStep(env, w, rows, i);
    RemainingIsAll(w, rows[..i]);
    assert forall k :: 0 <= k < i ==> rows[..i][k] == rows[k];
  }

  /** As long as no row is moved, the vector is unchanged. */
  lemma {:induction false} NothingMoved(env: Env, w: Where, rows: seq<Row>, i: nat)
    requires i <= |rows| && forall k: nat :: k < i ==> !IsMoved(w, rows, k)
    ensures Compacted(env, w, rows, i) == rows
    decreases i
  {
    if i > 0 {
      NothingMoved(env, w, rows, i - 1);
      CompactedMoves(env, w, rows, i - 1);
    }
  }

  /** Once a row is moved, some place holds what a move left. */
  lemma {:induction false} MoveLeavesHusk(env: Env, w: Where, rows: seq<Row>, i: nat, k: nat) returns (p: nat)
    requires k < i <= |rows| && IsMoved(w, rows, k)
    ensures p < i && Compacted(env, w, rows, i)[p] == env.movedFrom(rows[p])
    decreases i
  {
    CompactedMoves(env, w, rows, i - 1);
    if IsMoved(w, rows, i - 1) {
      p := i - 1;
    } else {
      p := MoveLeavesHusk(env, w, rows, i - 1, k);
    }
  }

  /** DELETE keeps the constraints, whatever moved rows leave behind, exactly when no error of the
      clause interrupts the moving of rows. */
  lemma DeleteKeepsIff(env: Env, t: Table, w: Where)
    requires TableOk(env, t) && t.schema.names != {}
    ensures DeletesCleanly(w, t.rows) <==> forall movedFrom: Row -> Row ::
              var env' := env.(movedFrom := movedFrom); TableOk(env', t.(rows := AfterDelete(env', w, t.rows)))
  {
    if DeletesCleanly(w, t.rows) {
      forall movedFrom: Row -> Row
        ensures var env' := env.(movedFrom := movedFrom); TableOk(env', t.(rows := AfterDelete(env', w, t.rows)))
      {
        CleanDeleteKeeps(env.(movedFrom := movedFrom), t, w);
      }
    } else {
      var empty: Row -> Row := _ => map[];
      var env' := env.(movedFrom := empty);
      var e := FirstError(w, t.rows);
      var k: nat :| k < e && IsMoved(w, t.rows, k);
      var p := MoveLeavesHusk(env', w, t.rows, e, k);
      assert !RowOk(t.schema, AfterDelete(env', w, t.rows)[p]);
    }
  }

  /** A clause that holds on c = 1, does not on c = 2, and raises an error on anything else. */
  function PickyClause(): Where {
    Filter((row: Row) =>
      if Field(row, "c") == Int(1) then Ok(true)
      else if Field(row, "c") == Int(2) then Ok(false)
      else Err(BadPredicate))
  }

  /** Of three rows the first is deleted, the second kept, and the clause raises an error on the
      third: the second has been moved to the front. */
  lemma InterruptedDelete(env: Env, w: Where, rows: seq<Row>)
    requires |rows| == 3 && Test(w, rows[0]) == Ok(true) && Test(w, rows[1]) == Ok(false) && Test(w, rows[2]).Err?
    ensures AfterDelete(env, w, rows) == [rows[1], env.movedFrom(rows[1]), rows[2]]
  {
    assert FirstError(w, rows) == 2;
    CompactedStep(env, w, rows, 0);
    CompactedStep(env, w, rows, 1);
    assert rows[..0] == [] && Compacted(env, w, rows, 0) == rows;
    assert Compacted(env, w, rows, 2) == Moved(rows, 1, 0, env.movedFrom(rows[1]));
  }

  lemma PlainColumn(column: ColumnDef)
    requires !column.unique && !column.notNull
    ensures SchemaOf([column]) == Schema([column], {column.name}, {}, {})
  {
    assert column in [column];
  }

  /** A concrete DELETE that breaks the constraints, where a moved-from row is left empty. */
  lemma RaisingDeleteBreaksTable(convert: (string, string) -> Result<Value>, show: Value -> string)
    ensures var env := Env(convert, show, (row: Row) => map[]);
      var rows: seq<Row> := [map["c" := Int(1)], map["c" := Int(2)], map["c" := Int(3)]];
      var t := Table(SchemaOf([ColumnDef("c", "INTEGER", false, false, "")]), rows);
      TableOk(env, t) && !TableOk(env, t.(rows := AfterDelete(env, PickyClause(), rows)))
  {
    var env := Env(convert, show, (row: Row) => map[]);
    var rows: seq<Row> := [map["c" := Int(1)], map["c" := Int(2)], map["c" := Int(3)]];
    PlainColumn(ColumnDef("c", "INTEGER", false, false, ""));
    InterruptedDelete(env, PickyClause(), rows);
    assert AfterDelete(env, PickyClause(), rows)[1] == map[];
  }

  lemma CleanDeleteKeeps(env: Env, t: Table, w: Where)
    requires TableOk(env, t) && DeletesCleanly(w, t.rows)
    ensures TableOk(env, t.(rows := AfterDelete(env, w, t.rows)))
  {
    if FirstError(w, t.rows) < |t.rows| {
      NothingMoved(env, w, t.rows, FirstError(w, t.rows));
    } else {
      DeleteKeeps(env, t, w);
    }
  }

  /** DELETE and SELECT split a table: what one clause deletes and what remains are, with
      multiplicity, the rows there were. */
  lemma {:induction false} DeleteComplementsFilter(w: Where, rows: seq<Row>)
    requires NoErrors(w, rows)
    ensures FilterRows(w, rows).Ok?
    ensures multiset(FilterRows(w, rows).value) + multiset(Remaining(w, rows)) == multiset(rows)
    decreases |rows|
  {
    if rows != [] {
      var n := |rows| - 1;
      assert rows == rows[..n] + [rows[n]];
      assert rows[n] in rows;
      DeleteComplementsFilter(w, rows[..n]);
    }
  }
}
