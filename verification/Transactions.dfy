/**
 The transaction layer of src/transaction_correctness.cpp with the versioned rows of
 include/dbx4/transaction_state.h: begin, insert, commit and rollback over rows whose
 versions carry their creator and its state.  Each operation is one atomic step.

 The fields version_id, created_at, start_time and read_set are constant in the source and
 left out; the transaction identifier counter is unbounded.
 */
module Transactions {

  datatype TxState = Active | Committed | Aborted

  datatype Version = Version(data: map<string, string>, deletedAt: int, creator: int, state: TxState) {

    /** is_visible_to */
    predicate VisibleTo(reader: int) {
      state == Committed || (creator == reader && state == Active)
    }

    /** is_deleted */
    predicate Deleted() {
      deletedAt >= 0
    }
  }

  type Table = map<string, seq<Version>>
  type Tables = map<string, Table>
  type WriteSet = map<string, set<string>>

  datatype State = State(tables: Tables, active: map<int, WriteSet>, next: int)

  const INITIAL := State(map[], map[], 1)

  // ----- The operations -----

  /** The version, moved to a final state if it is the transaction's own and still active. */
  function FlipVersion(v: Version, t: int, to: TxState): Version {
    if v.creator == t && v.state == Active then v.(state := to) else v
  }

  function FlipVersions(vs: seq<Version>, t: int, to: TxState): (r: seq<Version>)
    ensures |r| == |vs| && forall i :: 0 <= i < |vs| ==> r[i] == FlipVersion(vs[i], t, to)
  {
    seq(|vs|, i requires 0 <= i < |vs| => FlipVersion(vs[i], t, to))
  }

  function FlipRows(table: Table, rows: set<string>, t: int, to: TxState): Table {
    map row | row in table :: if row in rows then FlipVersions(table[row], t, to) else table[row]
  }

  function FlipTables(tables: Tables, writes: WriteSet, t: int, to: TxState): Tables {
    map tab | tab in tables :: if tab in writes then FlipRows(tables[tab], writes[tab], t, to) else tables[tab]
  }

  function Begin(s: State): State {
    State(s.tables, s.active[s.next := map[]], s.next + 1)
  }

  function VersionsOf(tables: Tables, tab: string, row: string): seq<Version> {
    if tab in tables && row in tables[tab] then tables[tab][row] else []
  }

  function RowsWritten(writes: WriteSet, tab: string): set<string> {
    if tab in writes then writes[tab] else {}
  }

  function Insert(s: State, t: int, tab: string, row: string, data: map<string, string>): State {
    if t !in s.active then s
    else
      var table := if tab in s.tables then s.tables[tab] else map[];
      var versions := VersionsOf(s.tables, tab, row) + [Version(data, -1, t, Active)];
      var writes := s.active[t][tab := RowsWritten(s.active[t], tab) + {row}];
      s.(tables := s.tables[tab := table[row := versions]], active := s.active[t := writes])
  }

  /** commit_transaction: refused if unknown, or if a written table does not exist. */
  function Commit(s: State, t: int): (State, bool) {
    if t !in s.active || !(s.active[t].Keys <= s.tables.Keys) then (s, false)
    else (State(FlipTables(s.tables, s.active[t], t, Committed), s.active - {t}, s.next), true)
  }

  function Rollback(s: State, t: int): (State, bool) {
    if t !in s.active then (s, false)
    else (State(FlipTables(s.tables, s.active[t], t, Aborted), s.active - {t}, s.next), true)
  }

  predicate RowVisible(vs: seq<Version>, reader: int) {
    exists i :: 0 <= i < |vs| && vs[i].VisibleTo(reader) && !vs[i].Deleted()
  }

  /** The rows of a table that a reader sees. */
  function Visible(s: State, reader: int, tab: string): set<string> {
    if tab !in s.tables then {}
    else set row | row in s.tables[tab] && RowVisible(s.tables[tab][row], reader)
  }

  // ----- Runs -----

  datatype Op =
    | BeginOp
    | InsertOp(t: int, tab: string, row: string, data: map<string, string>)
    | CommitOp(t: int)
    | RollbackOp(t: int)

  function Apply(s: State, op: Op): State {
    match op
    case BeginOp => Begin(s)
    case InsertOp(t, tab, row, data) => Insert(s, t, tab, row, data)
    case CommitOp(t) => Commit(s, t).0
    case RollbackOp(t) => Rollback(s, t).0
  }

  function Run(s: State, ops: seq<Op>): State
    decreases |ops|
  {
    if ops == [] then s else Apply(Run(s, ops[..|ops| - 1]), ops[|ops| - 1])
  }

  // ----- The invariant -----

  predicate InWrites(active: map<int, WriteSet>, t: int, tab: string, row: string) {
    t in active && row in RowsWritten(active[t], tab)
  }

  /** Every ACTIVE version belongs to a transaction still active, with the row in its write set. */
  ghost predicate ActiveIsOwned(s: State) {
    forall tab, row, i :: 0 <= i < |VersionsOf(s.tables, tab, row)| ==>
      var v := VersionsOf(s.tables, tab, row)[i];
      !v.Deleted() && v.creator < s.next && (v.state == Active ==> InWrites(s.active, v.creator, tab, row))
  }

  ghost predicate HasActive(s: State, tab: string, row: string, t: int) {
    exists i :: 0 <= i < |VersionsOf(s.tables, tab, row)|
      && VersionsOf(s.tables, tab, row)[i].creator == t && VersionsOf(s.tables, tab, row)[i].state == Active
  }

  /** Every row in a write set exists and holds an ACTIVE version of that transaction. */
  ghost predicate WritesAreThere(s: State) {
    && (forall t :: t in s.active ==> t < s.next && s.active[t].Keys <= s.tables.Keys)
    && (forall t, tab, row :: InWrites(s.active, t, tab, row) ==> HasActive(s, tab, row, t))
  }

  ghost predicate Inv(s: State) {
    ActiveIsOwned(s) && WritesAreThere(s)
  }

  lemma FlipAt(tables: Tables, writes: WriteSet, t: int, to: TxState, tab: string, row: string)
    ensures VersionsOf(FlipTables(tables, writes, t, to), tab, row)
      == if row in RowsWritten(writes, tab) then FlipVersions(VersionsOf(tables, tab, row), t, to)
         else VersionsOf(tables, tab, row)
  {
  }

  lemma InsertAt(s: State, t: int, tab: string, row: string, data: map<string, string>, tab': string, row': string)
    requires t in s.active
    ensures VersionsOf(Insert(s, t, tab, row, data).tables, tab', row')
      == VersionsOf(s.tables, tab', row') + if tab' == tab && row' == row then [Version(data, -1, t, Active)] else []
    ensures forall t' ::
              InWrites(Insert(s, t, tab, row, data).active, t', tab', row')
              <==> InWrites(s.active, t', tab', row') || (t' == t && tab' == tab && row' == row)
  {
  }

  lemma BeginKeeps(s: State)
    requires Inv(s)
    ensures Inv(Begin(s))
  {
    var s' := Begin(s);
    assert s.next !in s.active;
    forall t, tab, row | InWrites(s'.active, t, tab, row) ensures HasActive(s', tab, row, t) {
      assert InWrites(s.active, t, tab, row);
      assert HasActive(s, tab, row, t);
    }
  }

  lemma InsertKeeps(s: State, t: int, tab: string, row: string, data: map<string, string>)
    requires Inv(s)
    ensures Inv(Insert(s, t, tab, row, data))
  {
    if t in s.active {
      var s' := Insert(s, t, tab, row, data);
      forall tab', row' ensures forall i :: 0 <= i < |VersionsOf(s'.tables, tab', row')| ==>
        var v := VersionsOf(s'.tables, tab', row')[i];
        !v.Deleted() && v.creator < s'.next && (v.state == Active ==> InWrites(s'.active, v.creator, tab', row'))
      {
        InsertAt(s, t, tab, row, data, tab', row');
      }
      forall t', tab', row' | InWrites(s'.active, t', tab', row') ensures HasActive(s', tab', row', t') {
        InsertAt(s, t, tab, row, data, tab', row');
        var before, after := VersionsOf(s.tables, tab', row'), VersionsOf(s'.tables, tab', row');
        if InWrites(s.active, t', tab', row') {
          assert HasActive(s, tab', row', t');
          var i :| 0 <= i < |before| && before[i].creator == t' && before[i].state == Active;
          assert after[i] == before[i];
        } else {
          assert after[|before|].creator == t';
        }
      }
    }
  }

  lemma EndKeeps(s: State, t: int, to: TxState)
    requires Inv(s) && t in s.active && to != Active
    ensures Inv(State(FlipTables(s.tables, s.active[t], t, to), s.active - {t}, s.next))
  {
    var s' := State(FlipTables(s.tables, s.active[t], t, to), s.active - {t}, s.next);
    forall tab, row ensures forall i :: 0 <= i < |VersionsOf(s'.tables, tab, row)| ==>
      var v := VersionsOf(s'.tables, tab, row)[i];
      !v.Deleted() && v.creator < s'.next && (v.state == Active ==> InWrites(s'.active, v.creator, tab, row))
    {
      FlipAt(s.tables, s.active[t], t, to, tab, row);
    }
    forall t', tab, row | InWrites(s'.active, t', tab, row) ensures HasActive(s', tab, row, t') {
      assert InWrites(s.active, t', tab, row);
      assert HasActive(s, tab, row, t');
      FlipAt(s.tables, s.active[t], t, to, tab, row);
      var vs, vs' := VersionsOf(s.tables, tab, row), VersionsOf(s'.tables, tab, row);
      var i :| 0 <= i < |vs| && vs[i].creator == t' && vs[i].state == Active;
      assert vs'[i] == vs[i];
    }
  }

  lemma ApplyKeeps(s: State, op: Op)
    requires Inv(s)
    ensures Inv(Apply(s, op))
  {
    match op
    case BeginOp => BeginKeeps(s);
    case InsertOp(t, tab, row, data) => InsertKeeps(s, t, tab, row, data);
    case CommitOp(t) => if Commit(s, t).1 { EndKeeps(s, t, Committed); }
    case RollbackOp(t) => if Rollback(s, t).1 { EndKeeps(s, t, Aborted); }
  }

  /** The invariant holds after every interleaving of operations. */
  lemma {:induction false} RunKeeps(s: State, ops: seq<Op>)
    requires Inv(s)
    ensures Inv(Run(s, ops))
    decreases |ops|
  {
    if ops != [] {
      RunKeeps(s, ops[..|ops| - 1]);
      ApplyKeeps(Run(s, ops[..|ops| - 1]), ops[|ops| - 1]);
    }
  }

  lemma InitialInv()
    ensures Inv(INITIAL)
  {
  }

  /** In every reachable state commit succeeds exactly for active transactions: its table
      check never refuses one. */
  lemma {:induction false} CommitSucceedsIff(ops: seq<Op>, t: int)
    ensures Commit(Run(INITIAL, ops), t).1 <==> t in Run(INITIAL, ops).active
  {
    InitialInv();
    RunKeeps(INITIAL, ops);
  }

  // ----- What each operation does to the versions -----

  /** A reader sees a row of which some version is committed, or its own and still pending, and
      not marked deleted. */
  lemma VisibleMeans(s: State, reader: int, tab: string, row: string)
    ensures row in Visible(s, reader, tab) <==>
      exists v :: v in VersionsOf(s.tables, tab, row) && v.deletedAt < 0
                  && (v.state == Committed || (v.creator == reader && v.state == Active))
  {
  }

  /** An insert of an active transaction puts one pending version with the data behind the row's
      versions and notes the row in the write set; nothing else moves. */
  lemma InsertStores(s: State, t: int, tab: string, row: string, data: map<string, string>)
    requires t in s.active
    ensures var s' := Insert(s, t, tab, row, data);
      && tab in s'.tables && row in s'.tables[tab]
      && s'.tables[tab][row] == VersionsOf(s.tables, tab, row) + [Version(data, -1, t, Active)]
      && (forall tab', row' | (tab', row') != (tab, row) ::
            VersionsOf(s'.tables, tab', row') == VersionsOf(s.tables, tab', row'))
      && s'.tables.Keys == s.tables.Keys + {tab} && s'.next == s.next
      && s'.active.Keys == s.active.Keys && tab in s'.active[t] && row in s'.active[t][tab]
  {
  }

  /** Its transaction sees an inserted row at once; nobody else sees more than before. */
  lemma InsertIsSeen(s: State, t: int, tab: string, row: string, data: map<string, string>, reader: int)
    requires t in s.active
    ensures Visible(Insert(s, t, tab, row, data), reader, tab)
      == Visible(s, reader, tab) + if reader == t then {row} else {}
  {
    var s' := Insert(s, t, tab, row, data);
    var vs := VersionsOf(s.tables, tab, row);
    var vs' := vs + [Version(data, -1, t, Active)];
    assert s'.tables[tab][row] == vs';
    assert forall i :: 0 <= i < |vs| ==> vs'[i] == vs[i];
    assert vs'[|vs|].VisibleTo(t) && !vs'[|vs|].Deleted();
    assert RowVisible(vs', reader) <==> RowVisible(vs, reader) || reader == t;
  }

  /** The transaction is gone, its pending versions, and no others, have all moved to the final
      state; every version keeps its place, data and creator. */
  ghost predicate Ended(s: State, s': State, t: int, to: TxState) {
    && s'.active == s.active - {t} && s'.next == s.next && s'.tables.Keys == s.tables.Keys
    && forall tab, row :: VersionsEnded(VersionsOf(s.tables, tab, row), VersionsOf(s'.tables, tab, row), t, to)
  }

  ghost predicate VersionsEnded(vs: seq<Version>, vs': seq<Version>, t: int, to: TxState) {
    |vs'| == |vs| && forall i :: 0 <= i < |vs| ==>
      vs'[i] == vs[i].(state := if vs[i].creator == t && vs[i].state == Active then to else vs[i].state)
  }

  /** Commit and rollback of an active transaction reach all its pending versions, although they
      look only at the rows of its write set; of any other they are refused and change nothing. */
  lemma EndsEveryVersion(s: State, t: int)
    requires Inv(s)
    ensures Commit(s, t).1 <==> t in s.active
    ensures Rollback(s, t).1 <==> t in s.active
    ensures t in s.active ==> Ended(s, Commit(s, t).0, t, Committed) && Ended(s, Rollback(s, t).0, t, Aborted)
    ensures t !in s.active ==> Commit(s, t).0 == Rollback(s, t).0 == s
  {
    if t in s.active {
      EndsAll(s, t, Committed);
      EndsAll(s, t, Aborted);
    }
  }

  lemma EndsAll(s: State, t: int, to: TxState)
    requires Inv(s) && t in s.active
    ensures Ended(s, State(FlipTables(s.tables, s.active[t], t, to), s.active - {t}, s.next), t, to)
  {
    var s' := State(FlipTables(s.tables, s.active[t], t, to), s.active - {t}, s.next);
    forall tab, row
      ensures VersionsEnded(VersionsOf(s.tables, tab, row), VersionsOf(s'.tables, tab, row), t, to)
    {
      FlipAt(s.tables, s.active[t], t, to, tab, row);
    }
  }

  // ----- Final states are final -----

  /** Every version of s is still in s', at its place, with its data and creator; and one that
      had been committed or aborted has not changed at all. */
  ghost predicate Evolves(s: State, s': State) {
    forall tab, row :: VersionsEvolve(VersionsOf(s.tables, tab, row), VersionsOf(s'.tables, tab, row))
  }

  ghost predicate VersionsEvolve(vs: seq<Version>, vs': seq<Version>) {
    |vs| <= |vs'| && forall i :: 0 <= i < |vs| ==>
      vs'[i] == vs[i].(state := vs'[i].state) && (vs[i].state != Active ==> vs'[i] == vs[i])
  }

  lemma ApplyEvolves(s: State, op: Op)
    ensures Evolves(s, Apply(s, op))
  {
    var s' := Apply(s, op);
    forall tab, row ensures VersionsEvolve(VersionsOf(s.tables, tab, row), VersionsOf(s'.tables, tab, row)) {
      match op
      case BeginOp =>
      case InsertOp(t, tab', row', data) => if t in s.active { InsertAt(s, t, tab', row', data, tab, row); }
      case CommitOp(t) => if Commit(s, t).1 { FlipAt(s.tables, s.active[t], t, Committed, tab, row); }
      case RollbackOp(t) => if Rollback(s, t).1 { FlipAt(s.tables, s.active[t], t, Aborted, tab, row); }
    }
  }

  /** Over every run, committed and aborted versions never change again. */
  lemma {:induction false} FinalStatesAreFinal(s: State, ops: seq<Op>)
    ensures Evolves(s, Run(s, ops))
    decreases |ops|
  {
    if ops != [] {
      var mid := Run(s, ops[..|ops| - 1]);
      FinalStatesAreFinal(s, ops[..|ops| - 1]);
      ApplyEvolves(mid, ops[|ops| - 1]);
      forall tab, row ensures VersionsEvolve(VersionsOf(s.tables, tab, row), VersionsOf(Run(s, ops).tables, tab, row)) {
        assert VersionsEvolve(VersionsOf(s.tables, tab, row), VersionsOf(mid.tables, tab, row));
        assert VersionsEvolve(VersionsOf(mid.tables, tab, row), VersionsOf(Run(s, ops).tables, tab, row));
      }
    }
  }

  // ----- The simple machine that the versions implement -----

  /** Transactions without versions: what is committed, and what each open transaction has
      written so far.  Commit publishes a whole write set at once; rollback forgets it. */
  datatype Ledger = Ledger(committed: set<(string, string)>, pending: map<int, set<(string, string)>>, next: int)

  const EMPTY_LEDGER := Ledger({}, map[], 1)

  function LedgerApply(a: Ledger, op: Op): Ledger {
    match op
    case BeginOp => Ledger(a.committed, a.pending[a.next := {}], a.next + 1)
    case InsertOp(t, tab, row, _) =>
      if t in a.pending then a.(pending := a.pending[t := a.pending[t] + {(tab, row)}]) else a
    case CommitOp(t) =>
      if t in a.pending then a.(committed := a.committed + a.pending[t], pending := a.pending - {t}) else a
    case RollbackOp(t) =>
      if t in a.pending then a.(pending := a.pending - {t}) else a
  }

  function LedgerRun(ops: seq<Op>): Ledger
    decreases |ops|
  {
    if ops == [] then EMPTY_LEDGER else LedgerApply(LedgerRun(ops[..|ops| - 1]), ops[|ops| - 1])
  }

  /** A reader sees the committed rows and its own pending ones. */
  predicate LedgerShows(a: Ledger, reader: int, tab: string, row: string) {
    (tab, row) in a.committed || (reader in a.pending && (tab, row) in a.pending[reader])
  }

  ghost predicate HasCommitted(tables: Tables, tab: string, row: string) {
    exists i :: 0 <= i < |VersionsOf(tables, tab, row)| && VersionsOf(tables, tab, row)[i].state == Committed
  }

  ghost predicate Simulates(s: State, a: Ledger) {
    && a.next == s.next && a.pending.Keys == s.active.Keys
    && (forall t, tab, row :: t in a.pending ==> ((tab, row) in a.pending[t] <==> InWrites(s.active, t, tab, row)))
    && (forall tab, row :: (tab, row) in a.committed <==> HasCommitted(s.tables, tab, row))
  }

  lemma InsertSimulates(s: State, a: Ledger, t: int, tab: string, row: string, data: map<string, string>)
    requires Simulates(s, a) && t in s.active
    ensures Simulates(Insert(s, t, tab, row, data), LedgerApply(a, InsertOp(t, tab, row, data)))
  {
    var s', a' := Insert(s, t, tab, row, data), LedgerApply(a, InsertOp(t, tab, row, data));
    forall tab', row'
      ensures (tab', row') in a'.committed <==> HasCommitted(s'.tables, tab', row')
      ensures forall t' :: t' in a'.pending ==>
        ((tab', row') in a'.pending[t'] <==> InWrites(s'.active, t', tab', row'))
    {
      InsertAt(s, t, tab, row, data, tab', row');
      var vs, vs' := VersionsOf(s.tables, tab', row'), VersionsOf(s'.tables, tab', row');
      if i :| 0 <= i < |vs| && vs[i].state == Committed { assert vs'[i].state == Committed; }
      if i :| 0 <= i < |vs'| && vs'[i].state == Committed { assert vs[i].state == Committed; }
    }
  }

  lemma EndSimulates(s: State, a: Ledger, t: int, to: TxState)
    requires Inv(s) && Simulates(s, a) && t in s.active && to != Active
    ensures var s' := State(FlipTables(s.tables, s.active[t], t, to), s.active - {t}, s.next);
      Simulates(s', LedgerApply(a, if to == Committed then CommitOp(t) else RollbackOp(t)))
  {
    var s' := State(FlipTables(s.tables, s.active[t], t, to), s.active - {t}, s.next);
    var a' := LedgerApply(a, if to == Committed then CommitOp(t) else RollbackOp(t));
    forall tab, row ensures (tab, row) in a'.committed <==> HasCommitted(s'.tables, tab, row) {
      FlipAt(s.tables, s.active[t], t, to, tab, row);
      var vs, vs' := VersionsOf(s.tables, tab, row), VersionsOf(s'.tables, tab, row);
      if i :| 0 <= i < |vs| && vs[i].state == Committed { assert vs'[i].state == Committed; }
      if InWrites(s.active, t, tab, row) && to == Committed {
        assert HasActive(s, tab, row, t);
        var i :| 0 <= i < |vs| && vs[i].creator == t && vs[i].state == Active;
        assert vs'[i].state == Committed;
      }
      if i :| 0 <= i < |vs'| && vs'[i].state == Committed {
        assert vs[i].state == Committed || (vs[i].creator == t && vs[i].state == Active);
      }
    }
  }

  lemma ApplySimulates(s: State, a: Ledger, op: Op)
    requires Inv(s) && Simulates(s, a)
    ensures Simulates(Apply(s, op), LedgerApply(a, op))
  {
    match op
    case BeginOp =>
    case InsertOp(t, tab, row, data) => if t in s.active { InsertSimulates(s, a, t, tab, row, data); }
    case CommitOp(t) => if t in s.active { EndSimulates(s, a, t, Committed); }
    case RollbackOp(t) => if t in s.active { EndSimulates(s, a, t, Aborted); }
  }

  /** What a reader sees of the versions is what the ledger shows it. */
  lemma VisibleIsShown(s: State, a: Ledger, reader: int, tab: string, row: string)
    requires Inv(s) && Simulates(s, a)
    ensures row in Visible(s, reader, tab) <==> LedgerShows(a, reader, tab, row)
  {
    var vs := VersionsOf(s.tables, tab, row);
    if row in Visible(s, reader, tab) {
      var i :| 0 <= i < |vs| && vs[i].VisibleTo(reader) && !vs[i].Deleted();
      if vs[i].state == Committed {
        assert HasCommitted(s.tables, tab, row);
      } else {
        assert InWrites(s.active, reader, tab, row);
      }
    }
    if LedgerShows(a, reader, tab, row) {
      if (tab, row) in a.committed {
        assert HasCommitted(s.tables, tab, row);
        var i :| 0 <= i < |vs| && vs[i].state == Committed;
        assert vs[i].VisibleTo(reader) && !vs[i].Deleted();
      } else {
        assert InWrites(s.active, reader, tab, row);
        assert HasActive(s, tab, row, reader);
        var i :| 0 <= i < |vs| && vs[i].creator == reader && vs[i].state == Active;
        assert vs[i].VisibleTo(reader) && !vs[i].Deleted();
      }
    }
  }

  /** Refinement: after every interleaving, every reader sees in every table exactly what the
      simple machine shows it after the same operations. */
  lemma {:induction false} VersionsRefineLedger(ops: seq<Op>)
    ensures Inv(Run(INITIAL, ops)) && Simulates(Run(INITIAL, ops), LedgerRun(ops))
    ensures forall reader, tab, row ::
      row in Visible(Run(INITIAL, ops), reader, tab) <==> LedgerShows(LedgerRun(ops), reader, tab, row)
    decreases |ops|
  {
    InitialInv();
    RunKeeps(INITIAL, ops);
    if ops != [] {
      var init, op := ops[..|ops| - 1], ops[|ops| - 1];
      VersionsRefineLedger(init);
      ApplySimulates(Run(INITIAL, init), LedgerRun(init), op);
    }
    forall reader, tab, row
      ensures row in Visible(Run(INITIAL, ops), reader, tab) <==> LedgerShows(LedgerRun(ops), reader, tab, row)
    {
      VisibleIsShown(Run(INITIAL, ops), LedgerRun(ops), reader, tab, row);
    }
  }

  // ----- Isolation and atomicity -----

  /** The set of rows that the ledger of a run shows is the visible set of the run. */
  lemma VisibleAfter(ops: seq<Op>, op: Op, reader: int, tab: string, row: string)
    ensures row in Visible(Run(INITIAL, ops), reader, tab) <==> LedgerShows(LedgerRun(ops), reader, tab, row)
    ensures row in Visible(Apply(Run(INITIAL, ops), op), reader, tab)
      <==> LedgerShows(LedgerApply(LedgerRun(ops), op), reader, tab, row)
  {
    var s, a := Run(INITIAL, ops), LedgerRun(ops);
    VersionsRefineLedger(ops);
    ApplyKeeps(s, op);
    ApplySimulates(s, a, op);
    VisibleIsShown(Apply(s, op), LedgerApply(a, op), reader, tab, row);
  }

  /** No operation of a transaction other than its commit changes what another reader sees. */
  lemma Isolation(ops: seq<Op>, op: Op, reader: int, tab: string)
    requires op.BeginOp? || (!op.CommitOp? && op.t != reader)
    ensures Visible(Apply(Run(INITIAL, ops), op), reader, tab) == Visible(Run(INITIAL, ops), reader, tab)
  {
    VersionsRefineLedger(ops);
    forall row ensures row in Visible(Apply(Run(INITIAL, ops), op), reader, tab)
      <==> row in Visible(Run(INITIAL, ops), reader, tab)
    {
      VisibleAfter(ops, op, reader, tab, row);
    }
  }

  /** Commit adds the whole write set to what every reader sees, in one step. */
  lemma AtomicCommit(ops: seq<Op>, t: int, reader: int, tab: string)
    requires t in Run(INITIAL, ops).active
    ensures var s := Run(INITIAL, ops);
      Visible(Commit(s, t).0, reader, tab) == Visible(s, reader, tab) + RowsWritten(s.active[t], tab)
  {
    var s := Run(INITIAL, ops);
    VersionsRefineLedger(ops);
    forall row ensures row in Visible(Commit(s, t).0, reader, tab)
      <==> row in Visible(s, reader, tab) || row in RowsWritten(s.active[t], tab)
    {
      VisibleAfter(ops, CommitOp(t), reader, tab, row);
      assert (tab, row) in LedgerRun(ops).pending[t] <==> InWrites(s.active, t, tab, row);
    }
  }

  /** After a rollback its transaction sees what any reader without writes of its own sees. */
  lemma RollbackForgets(ops: seq<Op>, t: int, stranger: int, tab: string)
    requires stranger !in Run(INITIAL, ops).active
    ensures var s := Run(INITIAL, ops + [RollbackOp(t)]);
      Visible(s, t, tab) == Visible(s, stranger, tab)
  {
    var all := ops + [RollbackOp(t)];
    assert all[..|all| - 1] == ops;
    VersionsRefineLedger(ops);
    VersionsRefineLedger(all);
    var s := Run(INITIAL, all);
    forall row ensures row in Visible(s, t, tab) <==> row in Visible(s, stranger, tab) {
      assert row in Visible(s, t, tab) <==> LedgerShows(LedgerRun(all), t, tab, row);
      assert row in Visible(s, stranger, tab) <==> LedgerShows(LedgerRun(all), stranger, tab, row);
    }
  }

  // ----- The code -----

  /** The loop over the versions of a row. */
  method FlipVersionsLoop(vs: seq<Version>, t: int, to: TxState) returns (r: seq<Version>)
    ensures r == FlipVersions(vs, t, to)
  {
    r := vs;
    for i := 0 to |vs|
      invariant |r| == |vs|
      invariant forall k :: 0 <= k < |vs| ==> r[k] == if k < i then FlipVersion(vs[k], t, to) else vs[k]
    {
      if r[i].creator == t && r[i].state == Active {
        r := r[i := r[i].(state := to)];
      }
    }
  }

  /** The loop over the written rows of a table. */
  method FlipRowsLoop(table: Table, rows: set<string>, t: int, to: TxState) returns (r: Table)
    ensures r == FlipRows(table, rows, t, to)
  {
    r := table;
    var todo := rows;
    while todo != {}
      invariant todo <= rows
      invariant r == FlipRows(table, rows - todo, t, to)
      decreases todo
    {
      var row :| row in todo;
      todo := todo - {row};
      if row in r {
        assert r[row] == table[row];
        var flipped := FlipVersionsLoop(r[row], t, to);
        r := r[row := flipped];
      }
    }
    assert rows - {} == rows;
  }

  lemma FlipOneMore(tables: Tables, writes: WriteSet, todo: set<string>, tab: string, t: int, to: TxState)
    requires tab in todo && todo <= writes.Keys
    ensures var r := FlipTables(tables, writes - todo, t, to);
      FlipTables(tables, writes - (todo - {tab}), t, to)
        == if tab in tables then r[tab := FlipRows(r[tab], writes[tab], t, to)] else r
  {
    assert forall other :: other in writes - (todo - {tab}) <==> other == tab || other in writes - todo;
  }

  /** The loop over a transaction's write set. */
  method FlipTablesLoop(tables: Tables, writes: WriteSet, t: int, to: TxState) returns (r: Tables)
    ensures r == FlipTables(tables, writes, t, to)
  {
    r := tables;
    var todo := writes.Keys;
    while todo != {}
      invariant todo <= writes.Keys
      invariant r == FlipTables(tables, writes - todo, t, to)
      decreases todo
    {
      var tab :| tab in todo;
      FlipOneMore(tables, writes, todo, tab, t, to);
      todo := todo - {tab};
      if tab in r {
        var flipped := FlipRowsLoop(r[tab], writes[tab], t, to);
        r := r[tab := flipped];
      }
    }
    assert writes - {} == writes;
  }

  class TransactionStore {
    var tables: Tables
    var active: map<int, WriteSet>
    var next: int

    ghost function View(): State
      reads this
    {
      State(tables, active, next)
    }

    ghost predicate Valid()
      reads this
    {
      Inv(View())
    }

    constructor ()
      ensures Valid() && View() == INITIAL
    {
      tables, active, next := map[], map[], 1;
    }

    method BeginTransaction() returns (t: int)
      requires Valid()
      modifies this
      ensures Valid() && View() == Begin(old(View())) && t == old(next) && t !in old(active)
      ensures active == old(active)[t := map[]] && next == t + 1 && tables == old(tables)
    {
      BeginKeeps(View());
      t := next;
      next := next + 1;
      active := active[t := map[]];
    }

    method InsertInTx(t: int, tab: string, row: string, data: map<string, string>)
      requires Valid()
      modifies this
      ensures Valid() && View() == Insert(old(View()), t, tab, row, data)
    {
      InsertKeeps(View(), t, tab, row, data);
      if t !in active { return; }
      var table := if tab in tables then tables[tab] else map[];
      var versions := VersionsOf(tables, tab, row) + [Version(data, -1, t, Active)];
      tables := tables[tab := table[row := versions]];
      active := active[t := active[t][tab := RowsWritten(active[t], tab) + {row}]];
    }

    method CommitTransaction(t: int) returns (ok: bool)
      requires Valid()
      modifies this
      ensures Valid() && (View(), ok) == Commit(old(View()), t)
      ensures ok <==> t in old(active)
      ensures if ok then Ended(old(View()), View(), t, Committed) else View() == old(View())
    {
      ApplyKeeps(View(), CommitOp(t));
      EndsEveryVersion(View(), t);
      if t !in active || !(active[t].Keys <= tables.Keys) { return false; }
      tables := FlipTablesLoop(tables, active[t], t, Committed);
      active := active - {t};
      ok := true;
    }

    method RollbackTransaction(t: int) returns (ok: bool)
      requires Valid()
      modifies this
      ensures Valid() && (View(), ok) == Rollback(old(View()), t)
      ensures ok <==> t in old(active)
      ensures if ok then Ended(old(View()), View(), t, Aborted) else View() == old(View())
    {
      ApplyKeeps(View(), RollbackOp(t));
      EndsEveryVersion(View(), t);
      if t !in active { return false; }
      tables := FlipTablesLoop(tables, active[t], t, Aborted);
      active := active - {t};
      ok := true;
    }

    /** count_visible_rows: the number of rows that the reader sees. */
    method CountVisibleRows(reader: int, tab: string) returns (count: nat)
      ensures count == |Visible(View(), reader, tab)|
    {
      if tab !in tables { return 0; }
      count := 0;
      var table := tables[tab];
      var todo := table.Keys;
      while todo != {}
        invariant todo <= table.Keys
        invariant count == |set row | row in table && row !in todo && RowVisible(table[row], reader)|
        decreases todo
      {
        var row :| row in todo;
        ghost var counted := set row | row in table && row !in todo && RowVisible(table[row], reader);
        todo := todo - {row};
        ghost var counted' := set row | row in table && row !in todo && RowVisible(table[row], reader);
        var seen := SeesRow(table[row], reader);
        if seen {
          count := count + 1;
          assert counted' == counted + {row};
        } else {
          assert counted' == counted;
        }
      }
      assert Visible(View(), reader, tab) == set row | row in table && row !in todo && RowVisible(table[row], reader);
    }

    /** The loop over the versions of a row: stop at the first that the reader sees. */
    static method SeesRow(vs: seq<Version>, reader: int) returns (seen: bool)
      ensures seen == RowVisible(vs, reader)
    {
      for i := 0 to |vs|
        invariant forall k :: 0 <= k < i ==> !(vs[k].VisibleTo(reader) && !vs[k].Deleted())
      {
        if vs[i].VisibleTo(reader) && !vs[i].Deleted() {
          return true;
        }
      }
      return false;
    }
  }
}
