/**
 Row versions and row locks of src/mvcc_locks.cpp, as the coordinator drives them.  Each
 coordinator method is one atomic step; counters are unbounded.
 */
module Mvcc {
  import opened Options
  import opened Words

  datatype Version = Version(id: nat, row: nat, txn: nat, stamp: nat, data: seq<Byte>, deleted: bool)

  datatype State = State(versions: map<nat, seq<Version>>, locks: map<nat, set<nat>>, nextVersion: nat, nextId: nat)

  const INITIAL := State(map[], map[], 0, 0)

  function Versions(s: State, row: nat): seq<Version> {
    if row in s.versions then s.versions[row] else []
  }

  function Lockers(s: State, row: nat): set<nat> {
    if row in s.locks then s.locks[row] else {}
  }

  // ----- The steps -----

  datatype Op =
    | Increment
    | Write(row: nat, txn: nat, data: seq<Byte>)
    | Delete(row: nat, txn: nat)
    | Acquire(row: nat, txn: nat)
    | Release(row: nat, txn: nat)

  function CreateVersion(s: State, row: nat, txn: nat, data: seq<Byte>): State {
    var v := Version(s.nextId, row, txn, s.nextVersion, data, false);
    s.(versions := s.versions[row := Versions(s, row) + [v]], nextId := s.nextId + 1)
  }

  /** Whether a step succeeds; Increment and Release always do. */
  predicate Succeeds(s: State, op: Op) {
    match op
    case Increment => true
    case Write(row, txn, _) => txn in Lockers(s, row)
    case Delete(row, txn) => txn in Lockers(s, row)
    case Acquire(row, txn) => Lockers(s, row) == {}
    case Release(_, _) => true
  }

  /** A delete writes one more version, with empty data. */
  function Apply(s: State, op: Op): State {
    match op
    case Increment => s.(nextVersion := s.nextVersion + 1)
    case Write(row, txn, data) => if Succeeds(s, op) then CreateVersion(s, row, txn, data) else s
    case Delete(row, txn) => if Succeeds(s, op) then CreateVersion(s, row, txn, []) else s
    case Acquire(row, txn) =>
      s.(locks := s.locks[row := if Succeeds(s, op) then {txn} else Lockers(s, row)])
    case Release(row, txn) =>
      if row !in s.locks then s
      else if s.locks[row] - {txn} == {} then s.(locks := s.locks - {row})
      else s.(locks := s.locks[row := s.locks[row] - {txn}])
  }

  function Run(s: State, ops: seq<Op>): State
    decreases |ops|
  {
    if ops == [] then s else Apply(Run(s, ops[..|ops| - 1]), ops[|ops| - 1])
  }

  /** get_version: the last version in the row's list whose stamp does not exceed the snapshot. */
  function LastAtMost(vs: seq<Version>, snapshot: nat): Option<Version> {
    if vs == [] then None
    else if vs[|vs| - 1].stamp <= snapshot then Some(vs[|vs| - 1])
    else LastAtMost(vs[..|vs| - 1], snapshot)
  }

  function GetVersion(s: State, row: nat, snapshot: nat): Option<Version> {
    LastAtMost(Versions(s, row), snapshot)
  }

  // ----- The invariant -----

  /** Stamps never decrease along a row's list and identifiers strictly increase; neither has
      reached its counter's next value. */
  ghost predicate OrderedVersions(vs: seq<Version>, row: nat, nextVersion: nat, nextId: nat) {
    && (forall i :: 0 <= i < |vs| ==> vs[i].row == row && vs[i].stamp <= nextVersion && vs[i].id < nextId)
    && (forall i, j :: 0 <= i < j < |vs| ==> vs[i].stamp <= vs[j].stamp && vs[i].id < vs[j].id)
  }

  /** A row's lock set is empty or a singleton. */
  ghost predicate AtMostOne(lockers: set<nat>) {
    forall a, b :: a in lockers && b in lockers ==> a == b
  }

  ghost predicate Inv(s: State) {
    forall row :: OrderedVersions(Versions(s, row), row, s.nextVersion, s.nextId) && AtMostOne(Lockers(s, row))
  }

  lemma ApplyKeeps(s: State, op: Op)
    requires Inv(s)
    ensures Inv(Apply(s, op))
  {
    var s' := Apply(s, op);
    forall row
      ensures OrderedVersions(Versions(s', row), row, s'.nextVersion, s'.nextId) && AtMostOne(Lockers(s', row))
    {
      VersionsKept(s, op, row);
      LockersKept(s, op, row);
    }
  }

  lemma VersionsKept(s: State, op: Op, row: nat)
    requires OrderedVersions(Versions(s, row), row, s.nextVersion, s.nextId)
    ensures OrderedVersions(Versions(Apply(s, op), row), row, Apply(s, op).nextVersion, Apply(s, op).nextId)
  {
    var vs, vs' := Versions(s, row), Versions(Apply(s, op), row);
    if vs' != vs {
      var data := if op.Write? then op.data else [];
      assert vs' == vs + [Version(s.nextId, row, op.txn, s.nextVersion, data, false)];
      AppendKeeps(vs, row, s.nextVersion, s.nextId, op.txn, data);
    }
  }

  lemma LockersKept(s: State, op: Op, row: nat)
    requires AtMostOne(Lockers(s, row))
    ensures AtMostOne(Lockers(Apply(s, op), row))
  {
  }

  lemma AppendKeeps(vs: seq<Version>, row: nat, nextVersion: nat, nextId: nat, txn: nat, data: seq<Byte>)
    requires OrderedVersions(vs, row, nextVersion, nextId)
    ensures OrderedVersions(vs, row, nextVersion, nextId + 1)
    ensures OrderedVersions(vs + [Version(nextId, row, txn, nextVersion, data, false)], row, nextVersion, nextId + 1)
  {
  }

  lemma {:induction false} RunKeeps(s: State, ops: seq<Op>)
    requires Inv(s)
    ensures Inv(Run(s, ops))
    decreases |ops|
  {
    if ops != [] {
      RunKeeps(s, ops[..|ops| - 1]);
      ApplyKeeps(Run(s, ops[..|ops| - 1]), ops[|ops| - 1]);
    }
  }

  lemma InitialInv()
    ensures Inv(INITIAL)
  {
  }

  // ----- Reading at a snapshot -----

  /** i is the newest version with the greatest stamp not exceeding the snapshot. */
  ghost predicate IsNewestAt(vs: seq<Version>, snapshot: nat, i: int) {
    && 0 <= i < |vs| && vs[i].stamp <= snapshot
    && forall j :: 0 <= j < |vs| && vs[j].stamp <= snapshot ==> vs[j].stamp <= vs[i].stamp && j <= i
  }

  lemma {:induction false} LastAtMostMeans(vs: seq<Version>, snapshot: nat)
    ensures LastAtMost(vs, snapshot) == None ==> forall j :: 0 <= j < |vs| ==> vs[j].stamp > snapshot
    ensures LastAtMost(vs, snapshot).Some? ==>
      exists i :: 0 <= i < |vs| && vs[i] == LastAtMost(vs, snapshot).value && vs[i].stamp <= snapshot
        && forall j :: i < j < |vs| ==> vs[j].stamp > snapshot
  {
    if vs != [] && vs[|vs| - 1].stamp > snapshot {
      var init := vs[..|vs| - 1];
      LastAtMostMeans(init, snapshot);
      if LastAtMost(init, snapshot).Some? {
        var i :| 0 <= i < |init| && init[i] == LastAtMost(init, snapshot).value && init[i].stamp <= snapshot
          && forall j :: i < j < |init| ==> init[j].stamp > snapshot;
        assert vs[i] == LastAtMost(vs, snapshot).value;
        forall j | i < j < |vs| ensures vs[j].stamp > snapshot {
          if j < |init| { assert init[j].stamp > snapshot; }
        }
      } else {
        forall j | 0 <= j < |vs| ensures vs[j].stamp > snapshot {
          if j < |init| { assert init[j].stamp > snapshot; }
        }
      }
    }
  }

  /** After every run, a read at a snapshot finds the newest version with the greatest stamp
      not exceeding it, and finds nothing only when there is none. */
  lemma ReadsNewest(ops: seq<Op>, row: nat, snapshot: nat)
    ensures var s := Run(INITIAL, ops); var vs := Versions(s, row);
      match GetVersion(s, row, snapshot)
      case None => forall j :: 0 <= j < |vs| ==> vs[j].stamp > snapshot
      case Some(v) => exists i :: IsNewestAt(vs, snapshot, i) && vs[i] == v
  {
    var s := Run(INITIAL, ops);
    var vs := Versions(s, row);
    InitialInv();
    RunKeeps(INITIAL, ops);
    assert OrderedVersions(vs, row, s.nextVersion, s.nextId);
    LastAtMostMeans(vs, snapshot);
    if GetVersion(s, row, snapshot).Some? {
      var i :| 0 <= i < |vs| && vs[i] == GetVersion(s, row, snapshot).value && vs[i].stamp <= snapshot
        && forall j :: i < j < |vs| ==> vs[j].stamp > snapshot;
      assert IsNewestAt(vs, snapshot, i);
    }
  }

  lemma {:induction false} ReadsStay(s: State, ops: seq<Op>, row: nat, snapshot: nat)
    requires snapshot < s.nextVersion
    ensures GetVersion(Run(s, ops), row, snapshot) == GetVersion(s, row, snapshot)
    ensures snapshot < Run(s, ops).nextVersion
    decreases |ops|
  {
    if ops != [] {
      var mid, op := Run(s, ops[..|ops| - 1]), ops[|ops| - 1];
      ReadsStay(s, ops[..|ops| - 1], row, snapshot);
      var vs, vs' := Versions(mid, row), Versions(Apply(mid, op), row);
      if vs' != vs {
        assert vs'[..|vs'| - 1] == vs;
      }
    }
  }

  /** A read at the current counter can still change: some transaction takes the row's lock
      and writes. */
  lemma ReadCanChange(s: State, row: nat, snapshot: nat) returns (ops: seq<Op>)
    requires Inv(s) && snapshot >= s.nextVersion
    ensures GetVersion(Run(s, ops), row, snapshot) != GetVersion(s, row, snapshot)
  {
    assert AtMostOne(Lockers(s, row));
    if Lockers(s, row) == {} {
      ops := [Acquire(row, 0)];
      assert ops[..0] == [];
      assert Run(s, ops) == Apply(s, ops[0]);
      assert Lockers(Run(s, ops), row) == {0};
      ops := WriteChanges(s, ops, row, 0, snapshot);
    } else {
      var holder :| holder in Lockers(s, row);
      assert Run(s, []) == s;
      ops := WriteChanges(s, [], row, holder, snapshot);
    }
  }

  lemma WriteChanges(s: State, before: seq<Op>, row: nat, txn: nat, snapshot: nat) returns (ops: seq<Op>)
    requires Inv(s) && snapshot >= s.nextVersion
    requires var mid := Run(s, before);
      && mid.versions == s.versions && mid.nextVersion == s.nextVersion && mid.nextId == s.nextId
      && txn in Lockers(mid, row)
    ensures GetVersion(Run(s, ops), row, snapshot) != GetVersion(s, row, snapshot)
  {
    var mid, op := Run(s, before), Write(row, txn, []);
    ops := before + [op];
    assert ops[..|ops| - 1] == before;
    assert Run(s, ops) == Apply(mid, op);
    var vs := Versions(s, row);
    assert Versions(Run(s, ops), row) == vs + [Version(s.nextId, row, txn, s.nextVersion, [], false)];
    assert OrderedVersions(vs, row, s.nextVersion, s.nextId);
    LastAtMostMeans(vs, snapshot);
  }

  /** Snapshot stability: the answer to a read is fixed for every later run exactly when its
      snapshot is below the current counter. */
  lemma SnapshotStableIff(s: State, row: nat, snapshot: nat)
    requires Inv(s)
    ensures (forall ops :: GetVersion(Run(s, ops), row, snapshot) == GetVersion(s, row, snapshot))
      <==> snapshot < s.nextVersion
  {
    if snapshot < s.nextVersion {
      forall ops ensures GetVersion(Run(s, ops), row, snapshot) == GetVersion(s, row, snapshot) {
        ReadsStay(s, ops, row, snapshot);
      }
    } else {
      var ops := ReadCanChange(s, row, snapshot);
      assert GetVersion(Run(s, ops), row, snapshot) != GetVersion(s, row, snapshot);
    }
  }

  /** What a delete leaves: a version like any other, with empty data and not marked deleted. */
  lemma DeleteLeavesVersion(s: State, row: nat, txn: nat)
    requires Succeeds(s, Delete(row, txn))
    ensures GetVersion(Apply(s, Delete(row, txn)), row, s.nextVersion)
         == Some(Version(s.nextId, row, txn, s.nextVersion, [], false))
  {
  }

  /** A write by the holder of the row's lock is what every read from the counter on returns;
      every read of another row, the locks and the counter stay as they were. */
  lemma WriteIsRead(s: State, row: nat, txn: nat, data: seq<Byte>, snapshot: nat)
    requires row in s.locks && txn in s.locks[row] && s.nextVersion <= snapshot
    ensures var s' := Apply(s, Write(row, txn, data));
      && GetVersion(s', row, snapshot) == Some(Version(s.nextId, row, txn, s.nextVersion, data, false))
      && (forall r, k | r != row :: GetVersion(s', r, k) == GetVersion(s, r, k))
      && s'.locks == s.locks && s'.nextVersion == s.nextVersion && s'.nextId == s.nextId + 1
  {
  }

  /** Without the lock a write and a delete change nothing. */
  lemma RefusedWrites(s: State, row: nat, txn: nat, data: seq<Byte>)
    requires row !in s.locks || txn !in s.locks[row]
    ensures Apply(s, Write(row, txn, data)) == Apply(s, Delete(row, txn)) == s
  {
  }

  lemma IncrementMoves(s: State)
    ensures Apply(s, Increment) == State(s.versions, s.locks, s.nextVersion + 1, s.nextId)
  {
  }

  // ----- Lock discipline -----

  /** A row that nobody has locked is given to whoever asks, and to nobody after that; the locks
      of other rows and all versions stay. */
  lemma AcquireTakes(s: State, row: nat, txn: nat, other: nat)
    requires row !in s.locks || s.locks[row] == {}
    ensures var s' := Apply(s, Acquire(row, txn));
      && Succeeds(s, Acquire(row, txn)) && !Succeeds(s', Acquire(row, other))
      && s'.locks == s.locks[row := {txn}] && s'.versions == s.versions
  {
  }

  /** Released by its holder, a row is free for everyone; released by anyone else, its lock stays
      where it was. */
  lemma ReleaseFrees(s: State, row: nat, holder: nat, txn: nat, other: nat)
    requires row in s.locks && s.locks[row] == {holder}
    ensures var s' := Apply(s, Release(row, txn));
      && s'.locks == (if txn == holder then s.locks - {row} else s.locks) && s'.versions == s.versions
      && (Succeeds(s', Acquire(row, other)) <==> txn == holder)
  {
    if txn != holder {
      assert holder in s.locks[row] - {txn} && s.locks[row] - {txn} == s.locks[row];
      assert s.locks[row := s.locks[row]] == s.locks;
    }
  }

  /** The state before step k of a run from the empty state. */
  function Before(ops: seq<Op>, k: nat): State
    requires k <= |ops|
  {
    Run(INITIAL, ops[..k])
  }

  lemma Step(ops: seq<Op>, k: nat)
    requires k < |ops|
    ensures Before(ops, k + 1) == Apply(Before(ops, k), ops[k]) && Inv(Before(ops, k))
  {
    assert ops[..k + 1][..k] == ops[..k];
    InitialInv();
    RunKeeps(INITIAL, ops[..k]);
  }

  /** A lock held before step i and not before step j was released in between, leaving none. */
  lemma {:induction false} LockLeaves(ops: seq<Op>, i: nat, j: nat, row: nat, txn: nat) returns (k: nat)
    requires i <= j <= |ops|
    requires txn in Lockers(Before(ops, i), row) && txn !in Lockers(Before(ops, j), row)
    ensures i <= k < j && ops[k] == Release(row, txn) && Lockers(Before(ops, k + 1), row) == {}
    decreases j
  {
    k := j - 1;
    Step(ops, k);
    if txn !in Lockers(Before(ops, k), row) {
      k := LockLeaves(ops, i, k, row, txn);
    } else {
      assert AtMostOne(Lockers(Before(ops, k), row));
    }
  }

  /** A lock not held before step i but held before step j was acquired in between. */
  lemma {:induction false} LockArrives(ops: seq<Op>, i: nat, j: nat, row: nat, txn: nat) returns (k: nat)
    requires i <= j <= |ops|
    requires txn !in Lockers(Before(ops, i), row) && txn in Lockers(Before(ops, j), row)
    ensures i <= k < j && ops[k] == Acquire(row, txn) && Succeeds(Before(ops, k), ops[k])
    decreases j
  {
    k := j - 1;
    Step(ops, k);
    if txn in Lockers(Before(ops, k), row) {
      k := LockArrives(ops, i, k, row, txn);
    }
  }

  predicate WritesRow(op: Op, row: nat, txn: nat) {
    (op.Write? || op.Delete?) && op.row == row && op.txn == txn
  }

  /** Over every run: a successful write or delete is made by the one holder of the row's lock;
      and between successful writes of one row by two transactions, the first releases the lock
      and later the second acquires it. */
  lemma LockDiscipline(ops: seq<Op>, i: nat, j: nat, row: nat, t: nat, u: nat) returns (rel: nat, acq: nat)
    requires i < j < |ops| && t != u
    requires WritesRow(ops[i], row, t) && Succeeds(Before(ops, i), ops[i])
    requires WritesRow(ops[j], row, u) && Succeeds(Before(ops, j), ops[j])
    ensures Lockers(Before(ops, i), row) == {t} && Lockers(Before(ops, j), row) == {u}
    ensures i < rel < acq < j
    ensures ops[rel] == Release(row, t) && ops[acq] == Acquire(row, u) && Succeeds(Before(ops, acq), ops[acq])
  {
    Step(ops, i);
    Step(ops, j);
    assert AtMostOne(Lockers(Before(ops, i), row)) && AtMostOne(Lockers(Before(ops, j), row));
    rel := LockLeaves(ops, i, j, row, t);
    acq := LockArrives(ops, rel + 1, j, row, u);
  }

  // ----- The code -----

  class MVCCCoordinator {
    var versions: map<nat, seq<Version>>
    var locks: map<nat, set<nat>>
    var nextVersion: nat
    var nextId: nat

    ghost function View(): State
      reads this
    {
      State(versions, locks, nextVersion, nextId)
    }

    ghost predicate Valid()
      reads this
    {
      Inv(View())
    }

    constructor ()
      ensures Valid() && View() == INITIAL
    {
      versions, locks, nextVersion, nextId := map[], map[], 0, 0;
    }

    method IncrementVersion()
      requires Valid()
      modifies this
      ensures Valid() && View() == Apply(old(View()), Increment)
      ensures nextVersion == old(nextVersion) + 1
      ensures versions == old(versions) && locks == old(locks) && nextId == old(nextId)
    {
      ApplyKeeps(View(), Increment);
      nextVersion := nextVersion + 1;
    }

    method IsLocked(row: nat, txn: nat) returns (held: bool)
      ensures held <==> row in locks && txn in locks[row]
    {
      if row in locks { return txn in locks[row]; }
      return false;
    }

    method WriteRow(row: nat, txn: nat, data: seq<Byte>) returns (ok: bool)
      requires Valid()
      modifies this
      ensures Valid() && View() == Apply(old(View()), Write(row, txn, data))
      ensures ok <==> old(row in locks && locks[row] == {txn})
      ensures ok ==> versions == old(versions)[row :=
        old(Versions(View(), row)) + [Version(old(nextId), row, txn, nextVersion, data, false)]]
    {
      ApplyKeeps(View(), Write(row, txn, data));
      assert AtMostOne(Lockers(View(), row));
      ok := IsLocked(row, txn);
      if ok { AppendVersion(row, txn, data); }
    }

    method DeleteRow(row: nat, txn: nat) returns (ok: bool)
      requires Valid()
      modifies this
      ensures Valid() && View() == Apply(old(View()), Delete(row, txn))
      ensures ok <==> old(row in locks && locks[row] == {txn})
      ensures ok ==> versions == old(versions)[row :=
        old(Versions(View(), row)) + [Version(old(nextId), row, txn, nextVersion, [], false)]]
    {
      ApplyKeeps(View(), Delete(row, txn));
      assert AtMostOne(Lockers(View(), row));
      ok := IsLocked(row, txn);
      if ok { AppendVersion(row, txn, []); }
    }

    method AppendVersion(row: nat, txn: nat, data: seq<Byte>)
      modifies this
      ensures View() == CreateVersion(old(View()), row, txn, data)
    {
      var v := Version(nextId, row, txn, nextVersion, data, false);
      nextId := nextId + 1;
      versions := versions[row := (if row in versions then versions[row] else []) + [v]];
    }

    method AcquireLock(row: nat, txn: nat) returns (ok: bool)
      requires Valid()
      modifies this
      ensures Valid() && View() == Apply(old(View()), Acquire(row, txn))
      ensures ok <==> old(row !in locks || locks[row] == {})
      ensures ok ==> locks == old(locks)[row := {txn}]
    {
      ApplyKeeps(View(), Acquire(row, txn));
      var lockers := if row in locks then locks[row] else {};
      ok := lockers == {};
      locks := locks[row := if ok then {txn} else lockers];
    }

    method ReleaseLock(row: nat, txn: nat)
      requires Valid()
      modifies this
      ensures Valid() && View() == Apply(old(View()), Release(row, txn))
    {
      ApplyKeeps(View(), Release(row, txn));
      if row in locks {
        var left := locks[row] - {txn};
        if left == {} {
          locks := locks - {row};
        } else {
          locks := locks[row := left];
        }
      }
    }

    /** The scanning loop of get_version. */
    method FindVersion(row: nat, snapshot: nat) returns (result: Option<Version>)
      ensures result == GetVersion(View(), row, snapshot)
    {
      result := None;
      if row !in versions { return; }
      var vs := versions[row];
      for i := 0 to |vs|
        invariant result == LastAtMost(vs[..i], snapshot)
      {
        assert vs[..i + 1][..i] == vs[..i];
        if vs[i].stamp <= snapshot { result := Some(vs[i]); }
      }
      assert vs[..|vs|] == vs;
    }
  }
}
