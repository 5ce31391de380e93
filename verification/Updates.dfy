/**
 execute_update of src/query_executor_engine.cpp.

 A row is changed in place before it is validated, and it is validated against a table that
 already holds it: a value in a UNIQUE column then clashes with itself.  What an UPDATE leaves
 behind, whether it fails or not, is modelled as it is, and exactly when the constraints
 survive it is proved.
 */
module Updates {
  import opened Options
  import opened Ordering
  import opened Queries

  /** One SET item: the column, and its expression as any function of the row or an error. */
  datatype Assignment = Assignment(column: string, value: Row -> Result<Value>)

  /** A row after the assignments, or after those before the first error. */
  datatype Assigned = Assigned(row: Row, error: Option<Error>)

  /** The loop over the assignments: each expression sees the assignments before it. */
  function AssignAll(schema: Schema, sets: seq<Assignment>, row: Row): Assigned
    decreases |sets|
  {
    if sets == [] then Assigned(row, None)
    else
      var before := AssignAll(schema, sets[..|sets| - 1], row);
      if before.error.Some? then before else AssignOne(schema, sets[|sets| - 1], before.row)
  }

  function AssignOne(schema: Schema, s: Assignment, row: Row): Assigned {
    if s.column !in schema.names then Assigned(row, Some(NoSuchColumn))
    else
      match s.value(row)
      case Err(e) => Assigned(row, Some(e))
      case Ok(v) => Assigned(row[s.column := v], None)
  }

  /** What one round of the loop over the rows does: the row it leaves, whether it counts, and
      the error that ends the statement. */
  datatype Step = Step(row: Row, updated: bool, error: Option<Error>)

  function UpdateOne(env: Env, schema: Schema, w: Where, sets: seq<Assignment>, rows: seq<Row>, i: nat): Step
    requires i < |rows|
  {
    match Test(w, rows[i])
    case Err(e) => Step(rows[i], false, Some(e))
    case Ok(false) => Step(rows[i], false, None)
    case Ok(true) =>
      var a := AssignAll(schema, sets, rows[i]);
      if a.error.Some? then Step(a.row, false, a.error)
      else
        match Validated(env, schema, rows[i := a.row], a.row)
        case Err(e) => Step(a.row, false, Some(e))
        case Ok(_) => Step(a.row, true, None)
  }

  /** The rounds of the loop, as a function of the rows and the place. */
  type Stepper = (seq<Row>, nat) -> Step

  function Round(env: Env, schema: Schema, w: Where, sets: seq<Assignment>): Stepper {
    (rows: seq<Row>, i: nat) =>
      if i < |rows| then UpdateOne(env, schema, w, sets, rows, i) else Step(map[], false, None)
  }

  /** The rows, how many count, the row last looked at, and the error that ended the statement. */
  datatype Update = Update(rows: seq<Row>, count: nat, at: nat, error: Option<Error>)

  /** The loop over the first i rows, for any rounds. */
  function UpdateWith(step: Stepper, rows: seq<Row>, i: nat): (u: Update)
    requires i <= |rows|
    ensures |u.rows| == |rows| && (u.error.Some? ==> u.at < i)
    decreases i
  {
    if i == 0 then Update(rows, 0, 0, None)
    else
      var u := UpdateWith(step, rows, i - 1);
      if u.error.Some? then u
      else
        var s := step(u.rows, i - 1);
        Update(u.rows[i - 1 := s.row], if s.updated then u.count + 1 else u.count, i - 1, s.error)
  }

  /** execute_update on the rows of a table. */
  function UpdateRows(env: Env, schema: Schema, w: Where, sets: seq<Assignment>, rows: seq<Row>): (u: Update)
    ensures |u.rows| == |rows| && (u.error.Some? ==> u.at < |rows|)
  {
    UpdateWith(Round(env, schema, w, sets), rows, |rows|)
  }

  lemma LoopNext(step: Stepper, rows: seq<Row>, i: nat, u: Update, s: Step)
    requires i < |rows| && UpdateWith(step, rows, i) == u && u.error.None? && step(u.rows, i) == s
    ensures UpdateWith(step, rows, i + 1)
      == Update(u.rows[i := s.row], if s.updated then u.count + 1 else u.count, i, s.error)
  {
  }

  lemma {:induction false} ErrorStays(step: Stepper, rows: seq<Row>, i: nat, k: nat)
    requires i <= k <= |rows| && UpdateWith(step, rows, i).error.Some?
    ensures UpdateWith(step, rows, k) == UpdateWith(step, rows, i)
    decreases k
  {
    if i < k { ErrorStays(step, rows, i, k - 1); }
  }

  /** One more round of the statement. */
  lemma RoundNext(env: Env, schema: Schema, w: Where, sets: seq<Assignment>, rows: seq<Row>, i: nat, u: Update, s: Step)
    requires i < |rows| && UpdateWith(Round(env, schema, w, sets), rows, i) == u && u.error.None?
    requires UpdateOne(env, schema, w, sets, u.rows, i) == s
    ensures UpdateWith(Round(env, schema, w, sets), rows, i + 1)
      == Update(u.rows[i := s.row], if s.updated then u.count + 1 else u.count, i, s.error)
  {
    assert Round(env, schema, w, sets)(u.rows, i) == s;
    LoopNext(Round(env, schema, w, sets), rows, i, u, s);
  }

  /** The statement ends at the end of the rows or at an error. */
  lemma UpdateEnds(env: Env, schema: Schema, w: Where, sets: seq<Assignment>, rows: seq<Row>, i: nat, u: Update)
    requires i <= |rows| && UpdateWith(Round(env, schema, w, sets), rows, i) == u && (i == |rows| || u.error.Some?)
    ensures UpdateRows(env, schema, w, sets, rows) == u
  {
    if u.error.Some? { ErrorStays(Round(env, schema, w, sets), rows, i, |rows|); }
  }

  /** The number of rows updated, or the first error. */
  function UpdateAnswer(env: Env, t: Table, w: Where, sets: seq<Assignment>): Result<nat> {
    var u := UpdateRows(env, t.schema, w, sets, t.rows);
    match u.error case Some(e) => Err(e) case None => Ok(u.count)
  }

  // ----- What an update changes -----

  /** Item i is the last for its column. */
  predicate LastSet(sets: seq<Assignment>, i: nat) {
    i < |sets| && forall j :: i < j < |sets| ==> sets[j].column != sets[i].column
  }

  /** After the assignments each column holds the value of the last item for it, computed on the
      row as the items before that left it; columns without an item are as they were. */
  lemma {:induction false} AssignMeans(schema: Schema, sets: seq<Assignment>, row: Row, i: nat, other: string)
    requires AssignAll(schema, sets, row).error.None?
    ensures var r := AssignAll(schema, sets, row).row;
      && (LastSet(sets, i) ==>
            sets[i].column in r && sets[i].value(AssignAll(schema, sets[..i], row).row) == Ok(r[sets[i].column]))
      && ((forall j :: 0 <= j < |sets| ==> sets[j].column != other) ==>
            (other in r <==> other in row) && (other in r ==> r[other] == row[other]))
    decreases |sets|
  {
    if sets != [] {
      var n := |sets| - 1;
      AssignMeans(schema, sets[..n], row, i, other);
      assert forall j :: 0 <= j < n ==> sets[..n][j] == sets[j];
      if i < n { assert sets[..n][..i] == sets[..i]; }
    }
  }

  lemma {:induction false} AssignKeepsColumns(schema: Schema, sets: seq<Assignment>, row: Row)
    requires row.Keys == schema.names
    ensures AssignAll(schema, sets, row).row.Keys == schema.names
    decreases |sets|
  {
    if sets != [] { AssignKeepsColumns(schema, sets[..|sets| - 1], row); }
  }

  function Assigner(schema: Schema, sets: seq<Assignment>): Row -> Assigned {
    (row: Row) => AssignAll(schema, sets, row)
  }

  /** What a round leaves of the row it looks at. */
  ghost predicate StepMeans(w: Where, assign: Row -> Assigned, row: Row, s: Step) {
    && (Test(w, row) != Ok(true) ==> s.row == row && !s.updated && (s.error.None? ==> Test(w, row) == Ok(false)))
    && (Test(w, row) == Ok(true) ==> s.row == assign(row).row)
    && (Test(w, row) == Ok(true) && s.error.None? ==> assign(row).error.None? && s.updated)
  }

  ghost predicate Assigns(step: Stepper, w: Where, assign: Row -> Assigned) {
    forall rows, i: nat {:trigger step(rows, i)} :: i < |rows| ==> StepMeans(w, assign, rows[i], step(rows, i))
  }

  lemma RoundAssigns(env: Env, schema: Schema, w: Where, sets: seq<Assignment>)
    ensures Assigns(Round(env, schema, w, sets), w, Assigner(schema, sets))
  {
    var step, assign := Round(env, schema, w, sets), Assigner(schema, sets);
    forall rows: seq<Row>, i: nat | i < |rows| ensures StepMeans(w, assign, rows[i], step(rows, i)) {
      assert step(rows, i) == UpdateOne(env, schema, w, sets, rows, i);
    }
  }

  lemma {:induction false} LoopLeaves(step: Stepper, w: Where, assign: Row -> Assigned, rows: seq<Row>, i: nat, j: nat)
    requires Assigns(step, w, assign) && i <= |rows| && j < |rows|
    ensures var u := UpdateWith(step, rows, i);
      j >= i || (u.error.Some? && j > u.at) || Test(w, rows[j]) != Ok(true) ==> u.rows[j] == rows[j]
    decreases i
  {
    if i > 0 {
      LoopLeaves(step, w, assign, rows, i - 1, j);
    }
  }

  lemma {:induction false} LoopSets(step: Stepper, w: Where, assign: Row -> Assigned, rows: seq<Row>, i: nat, j: nat)
    requires Assigns(step, w, assign) && j < i <= |rows| && UpdateWith(step, rows, i).error.None?
    ensures Test(w, rows[j]).Ok?
    ensures Test(w, rows[j]) == Ok(true) ==> assign(rows[j]) == Assigned(UpdateWith(step, rows, i).rows[j], None)
    decreases i
  {
    if j < i - 1 {
      LoopSets(step, w, assign, rows, i - 1, j);
    } else {
      LoopLeaves(step, w, assign, rows, j, j);
    }
  }

  lemma CountNext(w: Where, rows: seq<Row>, i: nat, hit: bool)
    requires i < |rows| && FilterRows(w, rows[..i]).Ok? && Test(w, rows[i]) == Ok(hit)
    ensures FilterRows(w, rows[..i + 1]).Ok?
    ensures |FilterRows(w, rows[..i + 1]).value| == |FilterRows(w, rows[..i]).value| + if hit then 1 else 0
  {
    assert rows[..i + 1][..i] == rows[..i];
    FilterNext(w, rows[..i + 1], i);
  }

  /** A round that raises no error counts exactly the rows on which the clause holds. */
  lemma RoundCounts(step: Stepper, w: Where, assign: Row -> Assigned, rows: seq<Row>, i: nat)
    requires Assigns(step, w, assign) && i < |rows| && UpdateWith(step, rows, i + 1).error.None?
    ensures UpdateWith(step, rows, i).error.None? && Test(w, rows[i]).Ok?
    ensures UpdateWith(step, rows, i + 1).count
      == UpdateWith(step, rows, i).count + if Test(w, rows[i]) == Ok(true) then 1 else 0
  {
    var u := UpdateWith(step, rows, i);
    LoopLeaves(step, w, assign, rows, i, i);
    if u.error.None? { assert StepMeans(w, assign, u.rows[i], step(u.rows, i)); }
  }

  lemma {:induction false} LoopCounts(step: Stepper, w: Where, assign: Row -> Assigned, rows: seq<Row>, i: nat)
    requires Assigns(step, w, assign) && i <= |rows| && UpdateWith(step, rows, i).error.None?
    ensures FilterRows(w, rows[..i]).Ok? && UpdateWith(step, rows, i).count == |FilterRows(w, rows[..i]).value|
    decreases i
  {
    if i > 0 {
      RoundCounts(step, w, assign, rows, i - 1);
      LoopCounts(step, w, assign, rows, i - 1);
      assert i - 1 + 1 == i;
      CountNext(w, rows, i - 1, Test(w, rows[i - 1]).value);
    }
  }

  /** Rows on which the clause does not hold, and those behind the one that ended the statement,
      are left alone.  If the statement succeeds, the others have their assignments, and it
      reports as many as SELECT with its clause would find. */
  lemma UpdateMeans(env: Env, schema: Schema, w: Where, sets: seq<Assignment>, rows: seq<Row>, j: nat)
    requires j < |rows|
    ensures var u := UpdateRows(env, schema, w, sets, rows);
      && ((u.error.Some? && j > u.at) || Test(w, rows[j]) != Ok(true) ==> u.rows[j] == rows[j])
      && (u.error.None? ==>
            && FilterRows(w, rows).Ok? && u.count == |FilterRows(w, rows).value|
            && (Test(w, rows[j]) == Ok(true) ==> AssignAll(schema, sets, rows[j]) == Assigned(u.rows[j], None)))
  {
    var step, assign := Round(env, schema, w, sets), Assigner(schema, sets);
    RoundAssigns(env, schema, w, sets);
    LoopLeaves(step, w, assign, rows, |rows|, j);
    if UpdateRows(env, schema, w, sets, rows).error.None? {
      LoopSets(step, w, assign, rows, |rows|, j);
      LoopCounts(step, w, assign, rows, |rows|);
      assert rows[..|rows|] == rows;
    }
  }

  // ----- When an update stops -----

  /** The row has a value in a UNIQUE column. */
  predicate HasUnique(schema: Schema, row: Row) {
    exists c :: c in schema.unique && c in row && !row[c].Null?
  }

  /** The statement cannot get past the row: the clause raises an error on it; or holds, and the
      assignments raise one, or leave a null in a NOT NULL column or any value in a UNIQUE one, which
      clashes with itself because the table already holds the row. */
  predicate Stops(schema: Schema, w: Where, sets: seq<Assignment>, row: Row) {
    match Test(w, row)
    case Err(_) => true
    case Ok(false) => false
    case Ok(true) =>
      var a := AssignAll(schema, sets, row);
      a.error.Some? || NullViolation(schema, a.row) || HasUnique(schema, a.row)
  }

  /** The first row that the statement cannot get past, or the number of rows. */
  function FirstStop(schema: Schema, w: Where, sets: seq<Assignment>, rows: seq<Row>): (e: nat)
    ensures e <= |rows| && (e < |rows| ==> Stops(schema, w, sets, rows[e]))
    ensures forall i :: 0 <= i < e ==> !Stops(schema, w, sets, rows[i])
    decreases |rows|
  {
    if rows == [] || Stops(schema, w, sets, rows[0]) then 0 else 1 + FirstStop(schema, w, sets, rows[1..])
  }

  lemma UniqueViolationIff(env: Env, schema: Schema, rows: seq<Row>, i: nat, row: Row)
    requires i < |rows|
    ensures UniqueViolation(env, schema, rows[i := row], row) <==> HasUnique(schema, row)
  {
    if HasUnique(schema, row) {
      var c :| c in schema.unique && c in row && !row[c].Null?;
      assert Clash(env, c, row, rows[i := row][i]);
    }
  }

  /** Whether a round raises an error depends on its row alone, not on the others. */
  lemma StopsIff(env: Env, schema: Schema, w: Where, sets: seq<Assignment>, rows: seq<Row>, i: nat)
    requires i < |rows|
    ensures UpdateOne(env, schema, w, sets, rows, i).error.Some? <==> Stops(schema, w, sets, rows[i])
  {
    UniqueViolationIff(env, schema, rows, i, AssignAll(schema, sets, rows[i]).row);
  }

  function Stopper(schema: Schema, w: Where, sets: seq<Assignment>): Row -> bool {
    (row: Row) => Stops(schema, w, sets, row)
  }

  ghost predicate StopsAt(step: Stepper, stops: Row -> bool) {
    forall rows, i: nat {:trigger step(rows, i)} :: i < |rows| ==> (step(rows, i).error.Some? <==> stops(rows[i]))
  }

  lemma RoundStops(env: Env, schema: Schema, w: Where, sets: seq<Assignment>)
    ensures StopsAt(Round(env, schema, w, sets), Stopper(schema, w, sets))
  {
    var step, stops := Round(env, schema, w, sets), Stopper(schema, w, sets);
    forall rows: seq<Row>, i: nat | i < |rows| ensures step(rows, i).error.Some? <==> stops(rows[i]) {
      StopsIff(env, schema, w, sets, rows, i);
      assert step(rows, i) == UpdateOne(env, schema, w, sets, rows, i);
    }
  }

  lemma LoopRunsOn(step: Stepper, stops: Row -> bool, rows: seq<Row>, i: nat, u: Update)
    requires StopsAt(step, stops) && i < |rows| && UpdateWith(step, rows, i) == u && u.error.None?
    requires u.rows[i] == rows[i] && !stops(rows[i])
    ensures UpdateWith(step, rows, i + 1).error.None?
  {
    LoopNext(step, rows, i, u, step(u.rows, i));
  }

  /** Rows not yet reached are as they were. */
  lemma {:induction false} LoopAhead(step: Stepper, rows: seq<Row>, i: nat, j: nat)
    requires i <= j < |rows|
    ensures UpdateWith(step, rows, i).rows[j] == rows[j]
    decreases i
  {
    if i > 0 { LoopAhead(step, rows, i - 1, j); }
  }

  lemma {:induction false} LoopRuns(step: Stepper, stops: Row -> bool, rows: seq<Row>, i: nat)
    requires StopsAt(step, stops) && i <= |rows| && forall k :: 0 <= k < i ==> !stops(rows[k])
    ensures UpdateWith(step, rows, i).error.None?
    decreases i
  {
    if i > 0 {
      LoopRuns(step, stops, rows, i - 1);
      LoopAhead(step, rows, i - 1, i - 1);
      LoopRunsOn(step, stops, rows, i - 1, UpdateWith(step, rows, i - 1));
    }
  }

  lemma LoopEnds(step: Stepper, rows: seq<Row>, e: nat, u: Update, s: Step)
    requires e < |rows| && UpdateWith(step, rows, e) == u && u.error.None? && step(u.rows, e) == s && s.error.Some?
    ensures var after := UpdateWith(step, rows, |rows|);
      after.error == s.error && after.at == e && after.rows == u.rows[e := s.row]
  {
    LoopNext(step, rows, e, u, s);
    ErrorStays(step, rows, e + 1, |rows|);
  }

  lemma LoopStops(step: Stepper, stops: Row -> bool, rows: seq<Row>, e: nat)
    requires StopsAt(step, stops) && e < |rows| && stops(rows[e]) && forall k :: 0 <= k < e ==> !stops(rows[k])
    ensures UpdateWith(step, rows, e).error.None?
    ensures var u, before := UpdateWith(step, rows, |rows|), UpdateWith(step, rows, e).rows;
      && before[e] == rows[e] && u.error.Some? && u.error == step(before, e).error
      && u.at == e && u.rows == before[e := step(before, e).row]
  {
    LoopRuns(step, stops, rows, e);
    LoopAhead(step, rows, e, e);
    LoopEnds(step, rows, e, UpdateWith(step, rows, e), step(UpdateWith(step, rows, e).rows, e));
  }

  /** UPDATE succeeds exactly when it can get past every row. */
  lemma UpdateSucceedsIff(env: Env, schema: Schema, w: Where, sets: seq<Assignment>, rows: seq<Row>)
    ensures UpdateRows(env, schema, w, sets, rows).error.None?
      <==> forall i :: 0 <= i < |rows| ==> !Stops(schema, w, sets, rows[i])
  {
    var step, stops := Round(env, schema, w, sets), Stopper(schema, w, sets);
    var e := FirstStop(schema, w, sets, rows);
    RoundStops(env, schema, w, sets);
    if e < |rows| {
      LoopStops(step, stops, rows, e);
    } else {
      LoopRuns(step, stops, rows, |rows|);
    }
  }

  /** The row that an UPDATE which gets as far as row e leaves at place j. */
  function RowAfter(schema: Schema, w: Where, sets: seq<Assignment>, rows: seq<Row>, e: nat, j: nat): Row
    requires j < |rows|
  {
    if j <= e && Test(w, rows[j]) == Ok(true) then AssignAll(schema, sets, rows[j]).row else rows[j]
  }

  lemma RowsStay(step: Stepper, w: Where, assign: Row -> Assigned, stops: Row -> bool, rows: seq<Row>, e: nat, j: nat)
    requires Assigns(step, w, assign) && StopsAt(step, stops) && j < |rows|
    requires e < |rows| && stops(rows[e]) && forall k :: 0 <= k < e ==> !stops(rows[k])
    ensures UpdateWith(step, rows, |rows|).rows[j]
      == if j <= e && Test(w, rows[j]) == Ok(true) then assign(rows[j]).row else rows[j]
  {
    LoopStops(step, stops, rows, e);
    LoopLeaves(step, w, assign, rows, e, j);
    if j < e { LoopSets(step, w, assign, rows, e, j); }
  }

  /** What a failing UPDATE leaves, place by place: assignments in the rows up to the first that
      it cannot get past, that one included, on which the clause holds. */
  lemma FailedUpdateMeans(env: Env, schema: Schema, w: Where, sets: seq<Assignment>, rows: seq<Row>, j: nat)
    requires FirstStop(schema, w, sets, rows) < |rows| && j < |rows|
    ensures var e, u := FirstStop(schema, w, sets, rows), UpdateRows(env, schema, w, sets, rows);
      u.error.Some? && u.at == e && u.rows[j] == RowAfter(schema, w, sets, rows, e, j)
  {
    var step, assign, stops := Round(env, schema, w, sets), Assigner(schema, sets), Stopper(schema, w, sets);
    var e := FirstStop(schema, w, sets, rows);
    RoundAssigns(env, schema, w, sets);
    RoundStops(env, schema, w, sets);
    LoopStops(step, stops, rows, e);
    RowsStay(step, w, assign, stops, rows, e, j);
  }

  // ----- The constraints -----

  /** Row k has the columns it should, no null in NOT NULL, and clashes with no other row. */
  ghost predicate FitsAt(env: Env, schema: Schema, rows: seq<Row>, k: nat)
    requires k < |rows|
  {
    && RowOk(schema, rows[k])
    && forall c, j :: c in schema.unique && 0 <= j < |rows| && j != k ==> !Clash(env, c, rows[k], rows[j])
  }

  /** Replacing one row keeps the constraints exactly when the new row fits. */
  lemma ReplaceKeepsIff(env: Env, t: Table, k: nat, row: Row)
    requires TableOk(env, t) && k < |t.rows|
    ensures TableOk(env, t.(rows := t.rows[k := row])) <==> FitsAt(env, t.schema, t.rows[k := row], k)
  {
    var rows := t.rows[k := row];
    if FitsAt(env, t.schema, rows, k) {
      forall c, i, j | c in t.schema.unique && 0 <= i < j < |rows| ensures !Clash(env, c, rows[j], rows[i]) {
        if i == k { assert !Clash(env, c, rows[k], rows[j]); }
        if i != k && j != k { assert !Clash(env, c, t.rows[j], t.rows[i]); }
      }
    }
    if TableOk(env, t.(rows := rows)) {
      forall c, j | c in t.schema.unique && 0 <= j < |rows| && j != k ensures !Clash(env, c, rows[k], rows[j]) {
        if j < k { assert !Clash(env, c, rows[k], rows[j]); } else { assert !Clash(env, c, rows[j], rows[k]); }
      }
    }
  }

  /** A round at row i of a table keeps the constraints, or ends the statement with an error and
      keeps them exactly when the row fits. */
  ghost predicate StepKeeps(env: Env, t: Table, i: nat, s: Step)
    requires i < |t.rows|
  {
    TableOk(env, t.(rows := t.rows[i := s.row])) <==> (s.error.Some? ==> FitsAt(env, t.schema, t.rows[i := s.row], i))
  }

  ghost predicate Keeps(step: Stepper, env: Env, schema: Schema) {
    forall t: Table, i: nat {:trigger step(t.rows, i)} ::
      t.schema == schema && TableOk(env, t) && i < |t.rows| ==> StepKeeps(env, t, i, step(t.rows, i))
  }

  lemma OneKeeps(env: Env, t: Table, w: Where, sets: seq<Assignment>, i: nat)
    requires TableOk(env, t) && i < |t.rows|
    ensures StepKeeps(env, t, i, UpdateOne(env, t.schema, w, sets, t.rows, i))
  {
    var row := UpdateOne(env, t.schema, w, sets, t.rows, i).row;
    ReplaceKeepsIff(env, t, i, row);
    if Test(w, t.rows[i]) == Ok(true) {
      AssignKeepsColumns(t.schema, sets, t.rows[i]);
    } else {
      assert t.rows[i := row] == t.rows;
    }
  }

  lemma RoundKeeps(env: Env, schema: Schema, w: Where, sets: seq<Assignment>)
    ensures Keeps(Round(env, schema, w, sets), env, schema)
  {
    var step := Round(env, schema, w, sets);
    forall t: Table, i: nat | t.schema == schema && TableOk(env, t) && i < |t.rows|
      ensures StepKeeps(env, t, i, step(t.rows, i))
    {
      OneKeeps(env, t, w, sets, i);
      assert step(t.rows, i) == UpdateOne(env, schema, w, sets, t.rows, i);
    }
  }

  lemma {:induction false} LoopKeepsIff(step: Stepper, env: Env, t: Table, i: nat)
    requires Keeps(step, env, t.schema) && TableOk(env, t) && i <= |t.rows|
    ensures var u := UpdateWith(step, t.rows, i);
      TableOk(env, t.(rows := u.rows)) <==> (u.error.Some? ==> FitsAt(env, t.schema, u.rows, u.at))
    decreases i
  {
    if i > 0 {
      LoopKeepsIff(step, env, t, i - 1);
      var u := UpdateWith(step, t.rows, i - 1);
      if u.error.None? { assert StepKeeps(env, t.(rows := u.rows), i - 1, step(t.(rows := u.rows).rows, i - 1)); }
    }
  }

  /** Either the statement can get past every row of the table, or the clause does not hold on the
      first that it cannot get past, or that row with its assignments has no null in NOT NULL and
      clashes neither with a later row nor with an earlier one on which the clause does not hold. */
  ghost predicate UpdatesCleanly(env: Env, t: Table, w: Where, sets: seq<Assignment>) {
    var e := FirstStop(t.schema, w, sets, t.rows);
    e < |t.rows| && Test(w, t.rows[e]) == Ok(true) ==>
      var row := AssignAll(t.schema, sets, t.rows[e]).row;
      && !NullViolation(t.schema, row)
      && forall c, j :: c in t.schema.unique && IsOther(w, t.rows, e, j) ==> !Clash(env, c, row, t.rows[j])
  }

  /** Row j is behind row e, or before it and not updated. */
  predicate IsOther(w: Where, rows: seq<Row>, e: nat, j: int) {
    0 <= j < |rows| && (j > e || (j < e && Test(w, rows[j]) != Ok(true)))
  }

  /** Rows that have been updated have no values in UNIQUE columns and clash with nothing. */
  lemma UpdatedNeverClashes(env: Env, schema: Schema, w: Where, sets: seq<Assignment>, row: Row, c: string, other: Row)
    requires Test(w, row) == Ok(true) && !Stops(schema, w, sets, row) && c in schema.unique
    ensures !Clash(env, c, other, AssignAll(schema, sets, row).row)
  {
  }

  /** The rows of a table after row e was replaced and earlier ones updated: the others are as
      they were, and the updated ones clash with nothing. */
  ghost predicate OthersStay(env: Env, t: Table, w: Where, rows: seq<Row>, e: nat)
    requires e < |rows|
  {
    && |rows| == |t.rows|
    && (forall j :: IsOther(w, t.rows, e, j) ==> rows[j] == t.rows[j])
    && (forall c, j :: c in t.schema.unique && 0 <= j < |rows| && j != e && !IsOther(w, t.rows, e, j) ==>
          !Clash(env, c, rows[e], rows[j]))
  }

  lemma TouchedFitsIff(env: Env, t: Table, w: Where, rows: seq<Row>, e: nat)
    requires e < |rows| && OthersStay(env, t, w, rows, e) && rows[e].Keys == t.schema.names
    ensures FitsAt(env, t.schema, rows, e) <==>
      && !NullViolation(t.schema, rows[e])
      && forall c, j :: c in t.schema.unique && IsOther(w, t.rows, e, j) ==> !Clash(env, c, rows[e], t.rows[j])
  {
    if FitsAt(env, t.schema, rows, e) {
      forall c, j | c in t.schema.unique && IsOther(w, t.rows, e, j) ensures !Clash(env, c, rows[e], t.rows[j]) {
        assert !Clash(env, c, rows[e], rows[j]);
      }
    }
  }

  lemma UntouchedFits(env: Env, t: Table, w: Where, rows: seq<Row>, e: nat)
    requires TableOk(env, t) && e < |rows| && OthersStay(env, t, w, rows, e) && rows[e] == t.rows[e]
    ensures FitsAt(env, t.schema, rows, e)
  {
    forall c, j | c in t.schema.unique && 0 <= j < |rows| && j != e ensures !Clash(env, c, rows[e], rows[j]) {
      if IsOther(w, t.rows, e, j) {
        if j < e { assert !Clash(env, c, t.rows[e], t.rows[j]); } else { assert !Clash(env, c, t.rows[j], t.rows[e]); }
      }
    }
  }

  lemma FailedUpdateLeaves(env: Env, t: Table, w: Where, sets: seq<Assignment>)
    requires FirstStop(t.schema, w, sets, t.rows) < |t.rows|
    ensures var e, u := FirstStop(t.schema, w, sets, t.rows), UpdateRows(env, t.schema, w, sets, t.rows);
      && u.error.Some? && u.at == e && OthersStay(env, t, w, u.rows, e)
      && u.rows[e] == RowAfter(t.schema, w, sets, t.rows, e, e)
  {
    var e, u := FirstStop(t.schema, w, sets, t.rows), UpdateRows(env, t.schema, w, sets, t.rows);
    forall j: nat | j < |t.rows| ensures u.rows[j] == RowAfter(t.schema, w, sets, t.rows, e, j) {
      FailedUpdateMeans(env, t.schema, w, sets, t.rows, j);
    }
    FailedUpdateMeans(env, t.schema, w, sets, t.rows, e);
    forall c, j | c in t.schema.unique && 0 <= j < |t.rows| && j != e && !IsOther(w, t.rows, e, j)
      ensures !Clash(env, c, u.rows[e], u.rows[j])
    {
      UpdatedNeverClashes(env, t.schema, w, sets, t.rows[j], c, u.rows[e]);
    }
  }

  lemma FailedRowFitsIff(env: Env, t: Table, w: Where, sets: seq<Assignment>)
    requires TableOk(env, t) && FirstStop(t.schema, w, sets, t.rows) < |t.rows|
    ensures var u := UpdateRows(env, t.schema, w, sets, t.rows);
      u.error.Some? && (FitsAt(env, t.schema, u.rows, u.at) <==> UpdatesCleanly(env, t, w, sets))
  {
    var e, u := FirstStop(t.schema, w, sets, t.rows), UpdateRows(env, t.schema, w, sets, t.rows);
    FailedUpdateLeaves(env, t, w, sets);
    if Test(w, t.rows[e]) == Ok(true) {
      AssignKeepsColumns(t.schema, sets, t.rows[e]);
      TouchedFitsIff(env, t, w, u.rows, e);
    } else {
      UntouchedFits(env, t, w, u.rows, e);
    }
  }

  /** UPDATE keeps the constraints exactly when it is clean, which can be told from the rows
      before it. */
  lemma UpdateKeepsIff(env: Env, t: Table, w: Where, sets: seq<Assignment>)
    requires TableOk(env, t)
    ensures TableOk(env, t.(rows := UpdateRows(env, t.schema, w, sets, t.rows).rows))
      <==> UpdatesCleanly(env, t, w, sets)
  {
    RoundKeeps(env, t.schema, w, sets);
    LoopKeepsIff(Round(env, t.schema, w, sets), env, t, |t.rows|);
    UpdateSucceedsIff(env, t.schema, w, sets, t.rows);
    if FirstStop(t.schema, w, sets, t.rows) < |t.rows| { FailedRowFitsIff(env, t, w, sets); }
  }

  /** An UPDATE of a row whose new value in a UNIQUE column is not null never succeeds, because
      the row clashes with itself. */
  lemma UniqueNeverUpdates(env: Env, schema: Schema, w: Where, sets: seq<Assignment>, rows: seq<Row>, k: nat)
    requires k < |rows| && Test(w, rows[k]) == Ok(true) && HasUnique(schema, AssignAll(schema, sets, rows[k]).row)
    ensures UpdateRows(env, schema, w, sets, rows).error.Some?
  {
    UpdateSucceedsIff(env, schema, w, sets, rows);
    assert Stops(schema, w, sets, rows[k]);
  }

  /** A concrete UPDATE that breaks a constraint: SET c = NULL, on a table with a NOT NULL column c
      and one row, reports an error but leaves the null in place. */
  lemma NullBreaksTable(env: Env)
    ensures var t := Table(SchemaOf([ColumnDef("c", "INTEGER", true, false, "")]), [map["c" := Int(1)]]);
      var sets := [Assignment("c", (row: Row) => Result<Value>.Ok(Null))];
      && TableOk(env, t)
      && UpdateRows(env, t.schema, NoWhere, sets, t.rows).error == Some(NotNullViolated)
      && !TableOk(env, t.(rows := UpdateRows(env, t.schema, NoWhere, sets, t.rows).rows))
  {
    var column := ColumnDef("c", "INTEGER", true, false, "");
    var t := Table(SchemaOf([column]), [map["c" := Int(1)]]);
    var set_ := Assignment("c", (row: Row) => Result<Value>.Ok(Null));
    assert column in t.schema.columns;
    assert "c" in t.schema.names && "c" in t.schema.notNull;
    assert t.schema.names == {"c"} && t.schema.unique == {};
    assert [set_][..0] == [] && AssignAll(t.schema, [], t.rows[0]) == Assigned(t.rows[0], None);
    var row: Row := t.rows[0]["c" := Null];
    assert AssignAll(t.schema, [set_], t.rows[0]) == AssignOne(t.schema, set_, t.rows[0]) == Assigned(row, None);
    assert NullViolation(t.schema, row) by { assert row["c"].Null?; }
    var step := Step(row, false, Some(NotNullViolated));
    assert UpdateOne(env, t.schema, NoWhere, [set_], t.rows, 0) == step;
    RoundNext(env, t.schema, NoWhere, [set_], t.rows, 0, Update(t.rows, 0, 0, None), step);
    var u := UpdateRows(env, t.schema, NoWhere, [set_], t.rows);
    assert u.rows[0] == row;
  }
}
