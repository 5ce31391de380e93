/**
 The event system of src/advanced_features.cpp: events with parent and child lineage, a
 depth cap, a FIFO queue, handlers, and a backtracking cycle detector.

 Identifiers and counters are unbounded.  The source leaves the depth of an event without a
 stored parent unassigned; it is taken to be 0.  What a handler does is the trace of its
 calls; a handler cannot raise events, because process_events holds the lock.
 */
module Events {

  datatype EventType = InsertEvent | UpdateEvent | DeleteEvent | ThresholdEvent | ScheduledEvent | CustomEvent

  datatype Event = Event(kind: EventType, row: nat, depth: nat, parent: nat, children: seq<nat>, processed: bool)

  const MAX_EVENT_DEPTH: nat := 15

  /** The fields of the class.  delivered records the handler calls (handler, event), in order. */
  datatype State = State(
    events: map<nat, Event>,
    queue: seq<nat>,
    handlers: seq<EventType>,          // handler h (from 1) listens to handlers[h - 1]
    nextId: nat,
    total: nat,
    cascaded: nat,
    delivered: seq<(nat, nat)>)

  const INITIAL := State(map[], [], [], 1, 0, 0, [])

  // ----- The operations -----

  predicate Rejected(s: State, parent: nat) {
    parent > 0 && parent in s.events && s.events[parent].depth + 1 > MAX_EVENT_DEPTH
  }

  /** raise_event: the state after it and the returned identifier (0 when the cap is hit). */
  function Raise(s: State, kind: EventType, row: nat, parent: nat): (State, nat) {
    var id := s.nextId;
    var s1 := s.(nextId := id + 1, total := s.total + 1);
    if Rejected(s, parent) then (s1, 0)
    else if parent > 0 && parent in s.events then
      var p := s.events[parent];
      var events := s.events[parent := p.(children := p.children + [id])];
      (s1.(cascaded := s.cascaded + 1,
           events := events[id := Event(kind, row, p.depth + 1, parent, [], false)],
           queue := s.queue + [id]), id)
    else
      (s1.(events := s.events[id := Event(kind, row, 0, parent, [], false)], queue := s.queue + [id]), id)
  }

  function Register(s: State, kind: EventType): State {
    s.(handlers := s.handlers + [kind])
  }

  /** The calls made for an event: every handler of its type, in handler order. */
  function Calls(handlers: seq<EventType>, id: nat, kind: EventType): seq<(nat, nat)>
    decreases |handlers|
  {
    if handlers == [] then []
    else
      var n := |handlers|;
      Calls(handlers[..n - 1], id, kind) + (if handlers[n - 1] == kind then [(n, id)] else [])
  }

  /** One round of process_events: the front of the queue. */
  function ProcessOne(s: State): State
    requires s.queue != []
  {
    var id, s1 := s.queue[0], s.(queue := s.queue[1..]);
    if id !in s.events then s1
    else s1.(events := s.events[id := s.events[id].(processed := true)],
             delivered := s.delivered + Calls(s.handlers, id, s.events[id].kind))
  }

  function Process(s: State): State
    decreases |s.queue|
  {
    if s.queue == [] then s else Process(ProcessOne(s))
  }

  // ----- Runs -----

  datatype Op = RaiseOp(kind: EventType, row: nat, parent: nat) | RegisterOp(kind: EventType) | ProcessOp

  function Apply(s: State, op: Op): State {
    match op
    case RaiseOp(kind, row, parent) => Raise(s, kind, row, parent).0
    case RegisterOp(kind) => Register(s, kind)
    case ProcessOp => Process(s)
  }

  function Run(ops: seq<Op>): State
    decreases |ops|
  {
    if ops == [] then INITIAL else Apply(Run(ops[..|ops| - 1]), ops[|ops| - 1])
  }

  // ----- The invariant -----

  predicate IsChildOf(events: map<nat, Event>, c: nat, p: nat) {
    c in events && events[c].parent == p && p > 0 && p < c && p in events
  }

  /** The stored children of p with identifiers below n, in order. */
  function ChildIds(events: map<nat, Event>, p: nat, n: nat): seq<nat> {
    if n == 0 then [] else ChildIds(events, p, n - 1) + (if IsChildOf(events, n - 1, p) then [n - 1] else [])
  }

  /** The stored and not yet processed events with identifiers below n, in order. */
  function Pending(events: map<nat, Event>, n: nat): seq<nat> {
    if n == 0 then []
    else Pending(events, n - 1) + (if n - 1 in events && !events[n - 1].processed then [n - 1] else [])
  }

  function SumOfChildren(events: map<nat, Event>, n: nat): nat {
    if n == 0 then 0
    else SumOfChildren(events, n - 1) + (if n - 1 in events then |events[n - 1].children| else 0)
  }

  /** Depths: at most the cap, and a child is one deeper than its parent. */
  ghost predicate DepthsOk(events: map<nat, Event>) {
    && (forall id :: id in events ==> events[id].depth <= MAX_EVENT_DEPTH)
    && (forall c, p :: IsChildOf(events, c, p) ==> events[c].depth == events[p].depth + 1)
  }

  /** The recorded children of an event are exactly the stored events that name it as parent. */
  ghost predicate LineageOk(events: map<nat, Event>, n: nat) {
    forall p :: p in events ==> events[p].children == ChildIds(events, p, n)
  }

  /** No call is made twice; calls are made only for processed events, by handlers of their type. */
  ghost predicate DeliveriesOk(s: State) {
    && (forall i, j :: 0 <= i < j < |s.delivered| ==> s.delivered[i] != s.delivered[j])
    && (forall i :: 0 <= i < |s.delivered| ==>
          var (h, id) := s.delivered[i];
          1 <= h <= |s.handlers| && id in s.events && s.events[id].processed && s.handlers[h - 1] == s.events[id].kind)
  }

  ghost predicate Inv(s: State) {
    && s.nextId == s.total + 1
    && (forall id :: id in s.events ==> 1 <= id < s.nextId)
    && DepthsOk(s.events)
    && LineageOk(s.events, s.nextId)
    && s.cascaded == SumOfChildren(s.events, s.nextId)
    && s.queue == Pending(s.events, s.nextId)
    && DeliveriesOk(s)
  }

  // ----- The invariant is kept -----

  lemma {:induction false} ChildIdsSame(e: map<nat, Event>, e': map<nat, Event>, p: nat, n: nat)
    requires forall c :: 0 <= c < n ==> (IsChildOf(e, c, p) <==> IsChildOf(e', c, p))
    ensures ChildIds(e, p, n) == ChildIds(e', p, n)
  {
    if n != 0 { ChildIdsSame(e, e', p, n - 1); }
  }

  lemma {:induction false} ChildIdsMean(events: map<nat, Event>, p: nat, n: nat, c: nat)
    ensures c in ChildIds(events, p, n) <==> c < n && IsChildOf(events, c, p)
  {
    if n != 0 { ChildIdsMean(events, p, n - 1, c); }
  }

  lemma {:induction false} PendingSame(e: map<nat, Event>, e': map<nat, Event>, n: nat)
    requires forall c :: 0 <= c < n ==> (c in e <==> c in e') && (c in e ==> e[c].processed == e'[c].processed)
    ensures Pending(e, n) == Pending(e', n)
  {
    if n != 0 { PendingSame(e, e', n - 1); }
  }

  lemma {:induction false} SumSame(e: map<nat, Event>, e': map<nat, Event>, n: nat)
    requires forall c :: 0 <= c < n ==> (c in e <==> c in e') && (c in e ==> |e[c].children| == |e'[c].children|)
    ensures SumOfChildren(e, n) == SumOfChildren(e', n)
  {
    if n != 0 { SumSame(e, e', n - 1); }
  }

  /** One more child anywhere below n is one more in the sum. */
  lemma {:induction false} SumOneMore(e: map<nat, Event>, e': map<nat, Event>, p: nat, n: nat)
    requires p in e && p in e' && p < n && |e'[p].children| == |e[p].children| + 1
    requires forall c :: 0 <= c < n && c != p ==>
      (c in e <==> c in e') && (c in e ==> |e[c].children| == |e'[c].children|)
    ensures SumOfChildren(e', n) == SumOfChildren(e, n) + 1
  {
    if p == n - 1 {
      SumSame(e, e', n - 1);
    } else {
      SumOneMore(e, e', p, n - 1);
    }
  }

  lemma RaiseRejectedKeeps(s: State, kind: EventType, row: nat, parent: nat)
    requires Inv(s) && Rejected(s, parent)
    ensures Inv(Raise(s, kind, row, parent).0)
  {
    var n := s.nextId;
    forall p | p in s.events ensures s.events[p].children == ChildIds(s.events, p, n + 1) {
      assert ChildIds(s.events, p, n + 1) == ChildIds(s.events, p, n) + [];
    }
  }

  lemma {:induction false} NoChildren(events: map<nat, Event>, n: nat)
    ensures ChildIds(events, n, n + 1) == []
  {
    if ChildIds(events, n, n + 1) != [] {
      var c := ChildIds(events, n, n + 1)[0];
      ChildIdsMean(events, n, n + 1, c);
    }
  }

  /** e' is e with the new event n stored, and n recorded under its parent if that is stored. */
  ghost predicate Stored(e: map<nat, Event>, e': map<nat, Event>, n: nat) {
    && n !in e && e'.Keys == e.Keys + {n}
    && (forall id :: id in e ==> id < n)
    && e'[n].children == [] && !e'[n].processed
    && forall id :: id in e ==>
         e'[id] == if e'[n].parent == id && id > 0 then e[id].(children := e[id].children + [n]) else e[id]
  }

  lemma LineageStored(e: map<nat, Event>, e': map<nat, Event>, n: nat)
    requires Stored(e, e', n) && LineageOk(e, n)
    ensures LineageOk(e', n + 1)
  {
    forall p | p in e' ensures e'[p].children == ChildIds(e', p, n + 1) {
      if p == n {
        NoChildren(e', n);
      } else {
        ChildIdsSame(e, e', p, n);
        assert IsChildOf(e', n, p) <==> e'[n].parent == p && p > 0;
      }
    }
  }

  lemma DepthsStored(e: map<nat, Event>, e': map<nat, Event>, n: nat)
    requires Stored(e, e', n) && DepthsOk(e) && e'[n].depth <= MAX_EVENT_DEPTH
    requires e'[n].parent > 0 && e'[n].parent in e ==> e'[n].depth == e[e'[n].parent].depth + 1
    ensures DepthsOk(e')
  {
    forall c, p | IsChildOf(e', c, p) ensures e'[c].depth == e'[p].depth + 1 {
      if c != n {
        assert IsChildOf(e, c, p);
      }
    }
  }

  lemma SumStored(e: map<nat, Event>, e': map<nat, Event>, n: nat)
    requires Stored(e, e', n)
    ensures SumOfChildren(e', n + 1)
         == SumOfChildren(e, n) + if e'[n].parent > 0 && e'[n].parent in e then 1 else 0
  {
    var p := e'[n].parent;
    if p > 0 && p in e {
      SumOneMore(e, e', p, n);
    } else {
      SumSame(e, e', n);
    }
  }

  lemma RaiseStores(s: State, kind: EventType, row: nat, parent: nat)
    requires !Rejected(s, parent) && forall id :: id in s.events ==> 1 <= id < s.nextId
    ensures Stored(s.events, Raise(s, kind, row, parent).0.events, s.nextId)
  {
  }

  lemma RaiseStoredKeeps(s: State, kind: EventType, row: nat, parent: nat)
    requires Inv(s) && !Rejected(s, parent)
    ensures Inv(Raise(s, kind, row, parent).0)
  {
    var s' := Raise(s, kind, row, parent).0;
    RaiseStores(s, kind, row, parent);
    StoredKeeps(s, s');
  }

  predicate HasParent(s: State, e: Event) { e.parent > 0 && e.parent in s.events }

  predicate FitsUnder(s: State, e: Event)
  {
    e.depth <= MAX_EVENT_DEPTH && (HasParent(s, e) ==> e.depth == s.events[e.parent].depth + 1)
  }

  /** Storing a new event, whatever its kind and parent, keeps the invariant. */
  lemma StoredKeeps(s: State, s': State)
    requires Inv(s) && Stored(s.events, s'.events, s.nextId)
    requires FitsUnder(s, s'.events[s.nextId])
    requires s'.cascaded == s.cascaded + if HasParent(s, s'.events[s.nextId]) then 1 else 0
    requires s'.nextId == s.nextId + 1 && s'.total == s.total + 1 && s'.queue == s.queue + [s.nextId]
    requires s'.handlers == s.handlers && s'.delivered == s.delivered
    ensures Inv(s')
  {
    var n := s.nextId;
    assert n >= 1;
    LineageStored(s.events, s'.events, n);
    DepthsStored(s.events, s'.events, n);
    SumStored(s.events, s'.events, n);
    PendingSame(s.events, s'.events, n);
    DeliveriesStored(s, s');
  }

  lemma DeliveriesStored(s: State, s': State)
    requires DeliveriesOk(s) && s'.delivered == s.delivered && s'.handlers == s.handlers
    requires forall id :: id in s.events ==> id in s'.events && s'.events[id].processed == s.events[id].processed
                                             && s'.events[id].kind == s.events[id].kind
    ensures DeliveriesOk(s')
  {
  }

  lemma RaiseKeeps(s: State, kind: EventType, row: nat, parent: nat)
    requires Inv(s)
    ensures Inv(Raise(s, kind, row, parent).0)
  {
    if Rejected(s, parent) {
      RaiseRejectedKeeps(s, kind, row, parent);
    } else {
      RaiseStoredKeeps(s, kind, row, parent);
    }
  }

  lemma {:induction false} PendingMeans(events: map<nat, Event>, n: nat, id: nat)
    ensures id in Pending(events, n) <==> id < n && id in events && !events[id].processed
  {
    if n != 0 { PendingMeans(events, n - 1, id); }
  }

  /** Processing the first pending event removes just it from the pending ones. */
  lemma {:induction false} PendingHead(e: map<nat, Event>, e': map<nat, Event>, n: nat)
    requires Pending(e, n) != []
    requires var id := Pending(e, n)[0]; id in e && e' == e[id := e[id].(processed := true)]
    ensures Pending(e', n) == Pending(e, n)[1..]
  {
    var id := Pending(e, n)[0];
    if Pending(e, n - 1) == [] {
      PendingEmpty(e, e', n - 1);
    } else {
      PendingHead(e, e', n - 1);
      PendingMeans(e, n - 1, id);
    }
  }

  lemma {:induction false} PendingEmpty(e: map<nat, Event>, e': map<nat, Event>, n: nat)
    requires Pending(e, n) == []
    requires forall c :: c in e' && !e'[c].processed ==> c in e && !e[c].processed
    ensures Pending(e', n) == []
  {
    if n != 0 { PendingEmpty(e, e', n - 1); }
  }

  lemma {:induction false} CallsMean(handlers: seq<EventType>, id: nat, kind: EventType, h: nat, x: nat)
    ensures (h, x) in Calls(handlers, id, kind) <==> x == id && 1 <= h <= |handlers| && handlers[h - 1] == kind
    decreases |handlers|
  {
    if handlers != [] { CallsMean(handlers[..|handlers| - 1], id, kind, h, x); }
  }

  lemma {:induction false} CallsDistinct(handlers: seq<EventType>, id: nat, kind: EventType)
    ensures var calls := Calls(handlers, id, kind); forall i, j :: 0 <= i < j < |calls| ==> calls[i] != calls[j]
    decreases |handlers|
  {
    if handlers != [] {
      var n := |handlers|;
      var before := Calls(handlers[..n - 1], id, kind);
      CallsDistinct(handlers[..n - 1], id, kind);
      CallsMean(handlers[..n - 1], id, kind, n, id);
      assert forall i :: 0 <= i < |before| ==> before[i] in before;
    }
  }

  lemma DeliveriesKept(s: State, s': State, id: nat)
    requires DeliveriesOk(s) && id in s.events && !s.events[id].processed
    requires s'.events == s.events[id := s.events[id].(processed := true)] && s'.handlers == s.handlers
    requires s'.delivered == s.delivered + Calls(s.handlers, id, s.events[id].kind)
    ensures DeliveriesOk(s')
  {
    var kind := s.events[id].kind;
    var calls := Calls(s.handlers, id, kind);
    CallsDistinct(s.handlers, id, kind);
    forall i | 0 <= i < |calls|
      ensures calls[i].1 == id && 1 <= calls[i].0 <= |s.handlers| && s.handlers[calls[i].0 - 1] == kind
    {
      CallsMean(s.handlers, id, kind, calls[i].0, calls[i].1);
      assert calls[i] in calls;
    }
  }

  /** Marking an event as processed changes no lineage. */
  lemma MarkedKeeps(e: map<nat, Event>, e': map<nat, Event>, id: nat, n: nat)
    requires id in e && e' == e[id := e[id].(processed := true)] && DepthsOk(e) && LineageOk(e, n)
    ensures DepthsOk(e') && LineageOk(e', n) && SumOfChildren(e', n) == SumOfChildren(e, n)
  {
    SumSame(e, e', n);
    forall p | p in e' ensures e'[p].children == ChildIds(e', p, n) { ChildIdsSame(e, e', p, n); }
    assert forall c, p :: IsChildOf(e', c, p) ==> IsChildOf(e, c, p);
  }

  lemma ProcessOneKeeps(s: State)
    requires Inv(s) && s.queue != []
    ensures Inv(ProcessOne(s)) && s.queue[0] in s.events
  {
    var id, s', n := s.queue[0], ProcessOne(s), s.nextId;
    assert id in s.queue;
    PendingMeans(s.events, n, id);
    PendingHead(s.events, s'.events, n);
    MarkedKeeps(s.events, s'.events, id, n);
    DeliveriesKept(s, s', id);
  }

  /** process_events leaves nothing pending: every stored event is processed. */
  lemma {:induction false} ProcessKeeps(s: State)
    requires Inv(s)
    ensures Inv(Process(s)) && Process(s).queue == []
    ensures Process(s).events.Keys == s.events.Keys
    ensures forall id :: id in s.events ==> Process(s).events[id] == s.events[id].(processed := true)
    ensures Process(s).handlers == s.handlers && Process(s).nextId == s.nextId && Process(s).total == s.total
    ensures Process(s).cascaded == s.cascaded
    decreases |s.queue|
  {
    if s.queue == [] {
      forall id | id in s.events ensures s.events[id].processed { PendingMeans(s.events, s.nextId, id); }
      assert forall id :: id in s.events ==> s.events[id] == s.events[id].(processed := true);
    } else {
      ProcessOneKeeps(s);
      ProcessKeeps(ProcessOne(s));
    }
  }

  /** The invariant holds after every run of raises, registrations and processing. */
  lemma {:induction false} RunKeeps(ops: seq<Op>)
    ensures Inv(Run(ops))
    decreases |ops|
  {
    if ops == [] {
      assert ChildIds(map[], 0, 1) == [] && Pending(map[], 1) == [] && SumOfChildren(map[], 1) == 0;
    } else {
      var before, op := Run(ops[..|ops| - 1]), ops[|ops| - 1];
      RunKeeps(ops[..|ops| - 1]);
      match op
      case RaiseOp(kind, row, parent) => RaiseKeeps(before, kind, row, parent);
      case RegisterOp(kind) =>
      case ProcessOp => ProcessKeeps(before);
    }
  }

  // ----- What the operations do -----

  /** raise_event, in its arguments.  Every raise takes an identifier and is counted.  One under a
      stored event of depth 15 is refused and does nothing else.  Any other stores the event as given
      and queues it: under a stored parent one level deeper, recorded behind the parent's
      children and counted as a cascade; else at depth 0, and no other event changes. */
  lemma RaiseMeans(s: State, kind: EventType, row: nat, parent: nat)
    requires Inv(s)
    ensures var (s', id) := Raise(s, kind, row, parent); var n := s.nextId;
      var under := parent > 0 && parent in s.events;
      && s'.nextId == n + 1 && s'.total == s.total + 1 && s'.handlers == s.handlers && s'.delivered == s.delivered
      && (under && s.events[parent].depth == 15 ==>
            id == 0 && s'.events == s.events && s'.queue == s.queue && s'.cascaded == s.cascaded)
      && (under && s.events[parent].depth != 15 ==>
            var p := s.events[parent];
            id == n && s'.queue == s.queue + [n] && s'.cascaded == s.cascaded + 1
            && s'.events == s.events[parent := Event(p.kind, p.row, p.depth, p.parent, p.children + [n], p.processed)]
                                    [n := Event(kind, row, p.depth + 1, parent, [], false)])
      && (!under ==>
            id == n && s'.queue == s.queue + [n] && s'.cascaded == s.cascaded
            && s'.events == s.events[n := Event(kind, row, 0, parent, [], false)])
  {
  }

  /** n raises, each under the event before. */
  function Cascade(n: nat): seq<Op> {
    if n == 0 then [] else Cascade(n - 1) + [RaiseOp(CustomEvent, n, n - 1)]
  }

  /** Each event is one level deeper than the one before, which has it as its only child. */
  ghost predicate IsCascade(s: State, n: nat) {
    && s.nextId == n + 1 && s.cascaded == (if n == 0 then 0 else n - 1)
    && forall k :: 1 <= k <= n ==>
         k in s.events && s.events[k].depth == k - 1 && s.events[k].children == if k < n then [k + 1] else []
  }

  lemma CascadeStep(s: State, n: nat)
    requires Inv(s) && IsCascade(s, n) && n < 16
    ensures IsCascade(Raise(s, CustomEvent, n + 1, n).0, n + 1)
  {
    RaiseMeans(s, CustomEvent, n + 1, n);
  }

  lemma {:induction false} CascadeRuns(n: nat)
    requires n <= 16
    ensures IsCascade(Run(Cascade(n)), n)
  {
    if n > 0 {
      assert Cascade(n)[..|Cascade(n)| - 1] == Cascade(n - 1);
      CascadeRuns(n - 1);
      RunKeeps(Cascade(n - 1));
      CascadeStep(Run(Cascade(n - 1)), n - 1);
    }
  }

  /** The cap is reached: sixteen raises go down to depth 15, and the next one under the last is
      refused. */
  lemma CascadeLimit(kind: EventType, row: nat)
    ensures var s := Run(Cascade(16));
      && IsCascade(s, 16) && s.events[16].depth == 15 && s.events[15].children == [16] && s.cascaded == 15
      && Raise(s, kind, row, 16).1 == 0 && Raise(s, kind, row, 16).0.events == s.events
  {
    CascadeRuns(16);
    RunKeeps(Cascade(16));
    RaiseMeans(Run(Cascade(16)), kind, row, 16);
  }

  /** The queue is in the order of the identifiers. */
  lemma {:induction false} PendingIncreases(events: map<nat, Event>, n: nat)
    ensures forall i, j :: 0 <= i < j < |Pending(events, n)| ==> Pending(events, n)[i] < Pending(events, n)[j]
    ensures forall i :: 0 <= i < |Pending(events, n)| ==> Pending(events, n)[i] < n
  {
    if n != 0 { PendingIncreases(events, n - 1); }
  }

  /** Handlers are in increasing order, none beyond n. */
  predicate Increasing(calls: seq<(nat, nat)>, n: nat) {
    && (forall i :: 0 <= i < |calls| ==> calls[i].0 <= n)
    && (forall i, j :: 0 <= i < j < |calls| ==> calls[i].0 < calls[j].0)
  }

  lemma IncreasingNext(calls: seq<(nat, nat)>, n: nat, id: nat)
    requires Increasing(calls, n)
    ensures Increasing(calls, n + 1) && Increasing(calls + [(n + 1, id)], n + 1)
  {
    var more := calls + [(n + 1, id)];
    forall i | 0 <= i < |more| ensures more[i].0 <= n + 1 && (i < |calls| ==> more[i].0 <= n) {
      if i < |calls| { assert more[i] == calls[i]; }
    }
    forall i, j | 0 <= i < j < |more| ensures more[i].0 < more[j].0 {
      if j < |calls| { assert more[i] == calls[i] && more[j] == calls[j]; }
    }
  }

  lemma {:induction false} CallsIncrease(handlers: seq<EventType>, id: nat, kind: EventType)
    ensures Increasing(Calls(handlers, id, kind), |handlers|)
    decreases |handlers|
  {
    if handlers != [] {
      var n := |handlers| - 1;
      var before := Calls(handlers[..n], id, kind);
      CallsIncrease(handlers[..n], id, kind);
      IncreasingNext(before, n, id);
      assert Calls(handlers, id, kind) == if handlers[n] == kind then before + [(n + 1, id)] else before;
    }
  }

  /** The calls for an event: once each handler of its type, in the order of registration. */
  lemma CallsInOrder(handlers: seq<EventType>, id: nat, kind: EventType)
    ensures var calls := Calls(handlers, id, kind);
      && (forall i :: 0 <= i < |calls| ==>
            calls[i].1 == id && 1 <= calls[i].0 <= |handlers| && handlers[calls[i].0 - 1] == kind)
      && (forall h: nat :: 1 <= h <= |handlers| && handlers[h - 1] == kind ==> (h, id) in calls)
      && Increasing(calls, |handlers|)
  {
    var calls := Calls(handlers, id, kind);
    CallsIncrease(handlers, id, kind);
    forall i | 0 <= i < |calls|
      ensures calls[i].1 == id && 1 <= calls[i].0 <= |handlers| && handlers[calls[i].0 - 1] == kind
    {
      var (h, x) := calls[i];
      assert (h, x) in calls;
      CallsMean(handlers, id, kind, h, x);
    }
    forall h: nat | 1 <= h <= |handlers| && handlers[h - 1] == kind ensures (h, id) in calls {
      CallsMean(handlers, id, kind, h, id);
    }
  }

  // ----- What the invariant says -----

  /** Each event is recorded as a child of at most one event, at most once, and of one that was
      raised before it. */
  lemma OneParent(s: State, p: nat, q: nat, i: nat, j: nat)
    requires Inv(s) && p in s.events && q in s.events
    requires i < |s.events[p].children| && j < |s.events[q].children|
    requires s.events[p].children[i] == s.events[q].children[j]
    ensures p == q && i == j && p < s.events[p].children[i]
  {
    var c := s.events[p].children[i];
    assert c in ChildIds(s.events, p, s.nextId) && c in ChildIds(s.events, q, s.nextId);
    ChildIdsMean(s.events, p, s.nextId, c);
    ChildIdsMean(s.events, q, s.nextId, c);
    ChildIdsIncrease(s.events, p, s.nextId);
  }

  lemma {:induction false} ChildIdsIncrease(events: map<nat, Event>, p: nat, n: nat)
    ensures forall i, j :: 0 <= i < j < |ChildIds(events, p, n)| ==>
      ChildIds(events, p, n)[i] < ChildIds(events, p, n)[j]
  {
    if n != 0 {
      var before := ChildIds(events, p, n - 1);
      ChildIdsIncrease(events, p, n - 1);
      forall i | 0 <= i < |before| ensures before[i] < n - 1 {
        ChildIdsMean(events, p, n - 1, before[i]);
        assert before[i] in before;
      }
    }
  }

  /** The calls for the queued events, in queue order. */
  function CallsFor(handlers: seq<EventType>, events: map<nat, Event>, queue: seq<nat>): seq<(nat, nat)>
    decreases |queue|
  {
    if queue == [] then []
    else
      (if queue[0] in events then Calls(handlers, queue[0], events[queue[0]].kind) else [])
      + CallsFor(handlers, events, queue[1..])
  }

  lemma {:induction false} CallsForSame(handlers: seq<EventType>, e: map<nat, Event>, e': map<nat, Event>,
                                        queue: seq<nat>)
    requires e.Keys == e'.Keys && forall id :: id in e ==> e[id].kind == e'[id].kind
    ensures CallsFor(handlers, e, queue) == CallsFor(handlers, e', queue)
    decreases |queue|
  {
    if queue != [] { CallsForSame(handlers, e, e', queue[1..]); }
  }

  /** From any state, processing calls exactly the handlers of each queued event's type, once
      per place in the queue, first queued first, in handler order. */
  lemma {:induction false} ProcessDelivers(s: State)
    ensures Process(s).delivered == s.delivered + CallsFor(s.handlers, s.events, s.queue)
    decreases |s.queue|
  {
    if s.queue != [] {
      var s1 := ProcessOne(s);
      ProcessDelivers(s1);
      CallsForSame(s.handlers, s.events, s1.events, s1.queue);
    }
  }

  // ----- Cycle detection -----

  /** The children of an event in any child graph. */
  function Children(graph: map<nat, seq<nat>>, id: nat): seq<nat> {
    if id in graph then graph[id] else []
  }

  /** detect_cycle as a function of the events on the current path. */
  function Detect(graph: map<nat, seq<nat>>, id: nat, path: set<nat>): bool
    decreases graph.Keys - path, 1, 0
  {
    if id in path then true
    else if id !in graph then false
    else DetectAny(graph, graph[id], path + {id})
  }

  function DetectAny(graph: map<nat, seq<nat>>, ids: seq<nat>, path: set<nat>): bool
    decreases graph.Keys - path, 2, |ids|
  {
    ids != [] && (Detect(graph, ids[0], path) || DetectAny(graph, ids[1..], path))
  }

  /** w follows child links. */
  ghost predicate Chain(graph: map<nat, seq<nat>>, w: seq<nat>) {
    w != [] && forall i :: 0 <= i < |w| - 1 ==> w[i + 1] in Children(graph, w[i])
  }

  /** The chain runs from id into the path, or back into itself. */
  ghost predicate Closes(graph: map<nat, seq<nat>>, id: nat, path: set<nat>, w: seq<nat>) {
    Chain(graph, w) && w[0] == id && (w[|w| - 1] in path || w[|w| - 1] in w[..|w| - 1])
  }

  lemma {:induction false} DetectAnyMeans(graph: map<nat, seq<nat>>, ids: seq<nat>, path: set<nat>)
    ensures DetectAny(graph, ids, path) <==> exists c :: c in ids && Detect(graph, c, path)
    decreases |ids|
  {
    if ids != [] {
      DetectAnyMeans(graph, ids[1..], path);
      assert ids[0] in ids;
      if c :| c in ids && Detect(graph, c, path) {
        assert c == ids[0] || c in ids[1..];
      }
    }
  }

  /** A positive answer comes with a closing chain. */
  lemma {:induction false} DetectFinds(graph: map<nat, seq<nat>>, id: nat, path: set<nat>) returns (w: seq<nat>)
    requires Detect(graph, id, path)
    ensures Closes(graph, id, path, w)
    decreases graph.Keys - path
  {
    if id in path {
      w := [id];
    } else {
      DetectAnyMeans(graph, graph[id], path + {id});
      var c :| c in graph[id] && Detect(graph, c, path + {id});
      var v := DetectFinds(graph, c, path + {id});
      w := [id] + v;
      forall i | 0 <= i < |w| - 1 ensures w[i + 1] in Children(graph, w[i]) {
        if i > 0 { assert v[i] in Children(graph, v[i - 1]); }
      }
      var last := v[|v| - 1];
      assert w[|w| - 1] == last && w[..|w| - 1] == [id] + v[..|v| - 1];
    }
  }

  /** A closing chain is found. */
  lemma {:induction false} DetectMissesNothing(graph: map<nat, seq<nat>>, id: nat, path: set<nat>, w: seq<nat>)
    requires Closes(graph, id, path, w)
    ensures Detect(graph, id, path)
    decreases |w|
  {
    if id !in path {
      assert |w| > 1;
      var v := w[1..];
      assert w[0 + 1] in Children(graph, w[0]);
      assert Chain(graph, v) by {
        forall i | 0 <= i < |v| - 1 ensures v[i + 1] in Children(graph, v[i]) {
          assert w[i + 1 + 1] in Children(graph, w[i + 1]);
        }
      }
      assert w[..|w| - 1] == [id] + v[..|v| - 1];
      DetectMissesNothing(graph, v[0], path + {id}, v);
      DetectAnyMeans(graph, graph[id], path + {id});
    }
  }

  /** A cycle is reachable from id: a chain from id to some event, and one of at least one
      link from that event back to itself. */
  ghost predicate CycleReachable(graph: map<nat, seq<nat>>, id: nat) {
    exists u, c :: Chain(graph, u) && u[0] == id && Chain(graph, c) && |c| > 1
      && c[0] == u[|u| - 1] && c[|c| - 1] == c[0]
  }

  lemma ClosedChainHasCycle(graph: map<nat, seq<nat>>, id: nat, w: seq<nat>)
    requires Closes(graph, id, {}, w)
    ensures CycleReachable(graph, id)
  {
    var n := |w| - 1;
    var i :| 0 <= i < n && w[..n][i] == w[n];
    var u, c := w[..i + 1], w[i..];
    forall k | 0 <= k < |u| - 1 ensures u[k + 1] in Children(graph, u[k]) { assert w[k + 1] in Children(graph, w[k]); }
    forall k | 0 <= k < |c| - 1 ensures c[k + 1] in Children(graph, c[k]) {
      assert w[i + k + 1] in Children(graph, w[i + k]);
    }
    assert Chain(graph, u) && Chain(graph, c);
  }

  lemma CycleGivesClosedChain(graph: map<nat, seq<nat>>, id: nat, u: seq<nat>, c: seq<nat>)
    requires Chain(graph, u) && u[0] == id && Chain(graph, c) && |c| > 1
    requires c[0] == u[|u| - 1] && c[|c| - 1] == c[0]
    ensures Closes(graph, id, {}, u + c[1..])
  {
    var w := u + c[1..];
    forall k | 0 <= k < |w| - 1 ensures w[k + 1] in Children(graph, w[k]) {
      if k < |u| - 1 {
        assert u[k + 1] in Children(graph, u[k]);
      } else {
        var m := k - |u| + 1;
        assert c[m + 1] in Children(graph, c[m]);
        assert w[k] == c[m] && w[k + 1] == c[m + 1];
      }
    }
    assert w[..|w| - 1][|u| - 1] == w[|u| - 1] == w[|w| - 1];
  }

  /** Started with nothing visited, the detector answers true exactly when a cycle is reachable. */
  lemma DetectsExactlyCycles(graph: map<nat, seq<nat>>, id: nat)
    ensures Detect(graph, id, {}) <==> CycleReachable(graph, id)
  {
    if Detect(graph, id, {}) {
      var w := DetectFinds(graph, id, {});
      ClosedChainHasCycle(graph, id, w);
    }
    if CycleReachable(graph, id) {
      var u, c :| Chain(graph, u) && u[0] == id && Chain(graph, c) && |c| > 1
        && c[0] == u[|u| - 1] && c[|c| - 1] == c[0];
      CycleGivesClosedChain(graph, id, u, c);
      DetectMissesNothing(graph, id, {}, u + c[1..]);
    }
  }

  /** The child links of a state. */
  function Links(s: State): map<nat, seq<nat>> {
    map id | id in s.events :: s.events[id].children
  }

  lemma LinksMean(s: State, id: nat)
    ensures Children(Links(s), id) == if id in s.events then s.events[id].children else []
  {
  }

  /** An event that were its own child would be found. */
  lemma SelfCycleIsFound(id: nat)
    ensures Detect(map[id := [id]], id, {})
  {
    assert DetectAny(map[id := [id]], [id], {id});
  }

  lemma {:induction false} ChainsClimb(s: State, w: seq<nat>)
    requires Inv(s) && Chain(Links(s), w) && |w| > 1
    ensures w[0] < w[|w| - 1]
    decreases |w|
  {
    assert w[0 + 1] in Children(Links(s), w[0]);
    ChildIdsMean(s.events, w[0], s.nextId, w[1]);
    if |w| > 2 {
      var v := w[1..];
      forall i | 0 <= i < |v| - 1 ensures v[i + 1] in Children(Links(s), v[i]) {
        assert w[i + 1 + 1] in Children(Links(s), w[i + 1]);
      }
      ChainsClimb(s, v);
    }
  }

  /** After every run, child links lead to later events, so no event is on a cycle and the
      detector answers false wherever it is started. */
  lemma RunsHaveNoCycles(ops: seq<Op>, id: nat)
    ensures !Detect(Links(Run(ops)), id, {})
  {
    var s := Run(ops);
    RunKeeps(ops);
    DetectsExactlyCycles(Links(s), id);
    if CycleReachable(Links(s), id) {
      var u, c :| Chain(Links(s), u) && u[0] == id && Chain(Links(s), c) && |c| > 1
        && c[0] == u[|u| - 1] && c[|c| - 1] == c[0];
      ChainsClimb(s, c);
    }
  }

  // ----- The class -----

  class EventSystem {
    var events: map<nat, Event>
    var queue: seq<nat>
    var handlers: seq<EventType>
    var nextId: nat
    var total: nat
    var cascaded: nat
    var delivered: seq<(nat, nat)>

    ghost function View(): State
      reads this
    {
      State(events, queue, handlers, nextId, total, cascaded, delivered)
    }

    ghost predicate Valid()
      reads this
    {
      Inv(View())
    }

    constructor ()
      ensures Valid() && View() == INITIAL
    {
      events, queue, handlers, delivered := map[], [], [], [];
      nextId, total, cascaded := 1, 0, 0;
      new;
      RunKeeps([]);
    }

    method RaiseEvent(kind: EventType, row: nat, parent: nat) returns (id: nat)
      requires Valid()
      modifies this
      ensures Valid() && View() == Raise(old(View()), kind, row, parent).0
      ensures id == if Rejected(old(View()), parent) then 0 else old(nextId)
    {
      RaiseKeeps(View(), kind, row, parent);
      id := StoreEvent(kind, row, parent);
    }

    /** The body of raise_event. */
    method StoreEvent(kind: EventType, row: nat, parent: nat) returns (id: nat)
      modifies this
      ensures View() == Raise(old(View()), kind, row, parent).0
      ensures id == if Rejected(old(View()), parent) then 0 else old(nextId)
    {
      id := nextId;
      nextId := nextId + 1;
      total := total + 1;
      var event := Event(kind, row, 0, parent, [], false);
      if parent > 0 && parent in events {
        var p := events[parent];
        event := event.(depth := p.depth + 1);
        if event.depth > MAX_EVENT_DEPTH { return 0; }
        events := events[parent := p.(children := p.children + [id])];
        cascaded := cascaded + 1;
      }
      events := events[id := event];
      queue := queue + [id];
    }

    method RegisterHandler(kind: EventType)
      requires Valid()
      modifies this`handlers
      ensures Valid() && View() == Register(old(View()), kind) && handlers == old(handlers) + [kind]
    {
      handlers := handlers + [kind];
    }

    /** process_events: every stored event is processed, and the handlers have been called for
        those that were pending, first raised first. */
    method ProcessEvents()
      requires Valid()
      modifies this
      ensures Valid() && View() == Process(old(View()))
      ensures queue == [] && events.Keys == old(events.Keys)
      ensures forall id :: id in events ==> events[id] == old(events)[id].(processed := true)
    {
      ProcessKeeps(View());
      while queue != []
        invariant Process(View()) == Process(old(View()))
        invariant Valid()
        decreases |queue|
      {
        ghost var next := ProcessOne(View());
        ProcessOneKeeps(View());
        var id := queue[0];
        queue := queue[1..];
        var event := events[id];
        CallHandlers(id, event.kind);
        events := events[id := event.(processed := true)];
        assert View() == next;
      }
    }

    /** The inner loop of process_events. */
    method CallHandlers(id: nat, kind: EventType)
      modifies this`delivered
      ensures delivered == old(delivered) + Calls(handlers, id, kind)
    {
      for h := 0 to |handlers|
        invariant delivered == old(delivered) + Calls(handlers[..h], id, kind)
      {
        assert handlers[..h + 1][..h] == handlers[..h];
        if handlers[h] == kind {
          delivered := delivered + [(h + 1, id)];
        }
      }
      assert handlers[..|handlers|] == handlers;
    }

    /** detect_cycle on the children of any state, and on any visited set. */
    method DetectCycle(id: nat, visited0: set<nat>) returns (found: bool, visited: set<nat>)
      ensures found == Detect(Links(View()), id, visited0)
      ensures !found ==> visited == visited0
      decreases events.Keys - visited0
    {
      visited := visited0;
      if id in visited { return true, visited; }
      visited := visited + {id};
      if id in events {
        var children := events[id].children;
        for k := 0 to |children|
          invariant visited == visited0 + {id}
          invariant DetectAny(Links(View()), children[k..], visited) == DetectAny(Links(View()), children, visited)
        {
          assert children[k..][0] == children[k] && children[k..][1..] == children[k + 1..];
          found, visited := DetectCycle(children[k], visited);
          if found { return true, visited; }
        }
      }
      visited := visited - {id};
      found := false;
    }
  }
}
