/**
 Runs of CREATE TABLE, INSERT, SELECT, UPDATE and DELETE over the tables of
 src/query_executor_engine.cpp, and the constraints that hold throughout.
 */
module Runs {
  import opened Queries
  import opened Updates

  type Database = map<string, Table>

  datatype Statement =
    | CreateTable(name: string, columns: seq<ColumnDef>)
    | InsertInto(name: string, names: seq<string>, values: seq<seq<Expression>>)
    | SelectFrom(name: string, query: Select)
    | UpdateSet(name: string, where_: Where, sets: seq<Assignment>)
    | DeleteFrom(name: string, where_: Where)

  predicate Creates(db: Database, name: string, columns: seq<ColumnDef>) {
    name != "" && columns != [] && name !in db
  }

  /** The statement is neither an UPDATE that stops at a row which it leaves unfit, nor a DELETE
      whose clause raises an error while rows are being moved: both can be told beforehand. */
  ghost predicate Clean(env: Env, db: Database, s: Statement) {
    s.name != "" && s.name in db ==>
      && (s.UpdateSet? ==> UpdatesCleanly(env, db[s.name], s.where_, s.sets))
      && (s.DeleteFrom? ==> DeletesCleanly(s.where_, db[s.name].rows))
  }

  function AfterUpdate(env: Env, t: Table, w: Where, sets: seq<Assignment>): Table {
    t.(rows := UpdateRows(env, t.schema, w, sets, t.rows).rows)
  }

  /** The database after a statement, whether it succeeded or not. */
  function Apply(env: Env, db: Database, s: Statement): Database {
    match s
    case CreateTable(name, columns) =>
      if Creates(db, name, columns) then db[name := Table(SchemaOf(columns), [])] else db
    case InsertInto(name, names, values) =>
      if name != "" && name in db then db[name := InsertAll(env, db[name], names, values).0] else db
    case SelectFrom(_, _) => db
    case UpdateSet(name, w, sets) =>
      if name != "" && name in db then db[name := AfterUpdate(env, db[name], w, sets)] else db
    case DeleteFrom(name, w) =>
      if name != "" && name in db then db[name := db[name].(rows := AfterDelete(env, w, db[name].rows))] else db
  }

  /** The databases that a run of statements goes through, from the empty one. */
  ghost predicate IsRun(env: Env, statements: seq<Statement>, dbs: seq<Database>) {
    && |dbs| == |statements| + 1 && dbs[0] == map[]
    && forall i :: 0 <= i < |statements| ==> dbs[i + 1] == Apply(env, dbs[i], statements[i])
  }

  ghost predicate DatabaseOk(env: Env, db: Database) {
    forall name :: name in db ==> TableOk(env, db[name])
  }

  lemma ApplyKeeps(env: Env, db: Database, s: Statement)
    requires DatabaseOk(env, db) && Clean(env, db, s)
    ensures DatabaseOk(env, Apply(env, db, s))
  {
    match s
    case CreateTable(name, columns) =>
    case InsertInto(name, names, values) =>
      if name != "" && name in db { InsertKeeps(env, db[name], names, values); }
    case SelectFrom(_, _) =>
    case UpdateSet(name, w, sets) =>
      if name != "" && name in db { UpdateKeepsIff(env, db[name], w, sets); }
    case DeleteFrom(name, w) =>
      if name != "" && name in db { CleanDeleteKeeps(env, db[name], w); }
  }

  /** The constraints hold at every point of every run of statements, failed ones included, up
      to the first that is not clean (after which UpdateKeepsIff and DeleteKeepsIff say that they
      do not, or need not, hold). */
  lemma {:induction false} RunKeeps(env: Env, statements: seq<Statement>, dbs: seq<Database>, k: nat)
    requires IsRun(env, statements, dbs) && k < |dbs| && forall i :: 0 <= i < k ==> Clean(env, dbs[i], statements[i])
    ensures DatabaseOk(env, dbs[k])
    decreases k
  {
    if k > 0 {
      RunKeeps(env, statements, dbs, k - 1);
      ApplyKeeps(env, dbs[k - 1], statements[k - 1]);
      assert dbs[k - 1 + 1] == Apply(env, dbs[k - 1], statements[k - 1]);
    }
  }
}
