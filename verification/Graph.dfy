/**
 The graph engine of src/advanced_features.cpp: breadth-first and depth-first traversal and
 cost propagation over an adjacency list.  Costs and weights are real numbers.
 */
module Graph {
  import opened Folds

  datatype Node = Node(id: nat, kind: string, cost: real, profit: real)

  datatype Edge = Edge(from: nat, to: nat, kind: string, weight: real)

  /** A recorded step of a traversal: the two nodes and the edge between them. */
  datatype TraversalPath = TraversalPath(nodes: seq<nat>, edges: seq<Edge>)

  type Adjacency = map<nat, seq<Edge>>

  function Out(adj: Adjacency, u: nat): seq<Edge> {
    if u in adj then adj[u] else []
  }

  /** Every edge is filed under its source. */
  ghost predicate Filed(adj: Adjacency) {
    forall u, e :: e in Out(adj, u) ==> e.from == u
  }

  // ----- Reachability -----

  ghost predicate Linked(adj: Adjacency, u: nat, v: nat) {
    u in adj && exists e :: e in adj[u] && e.to == v
  }

  /** p is a walk from u to v. */
  ghost predicate Walk(adj: Adjacency, u: nat, v: nat, p: seq<nat>) {
    && p != [] && p[0] == u && p[|p| - 1] == v
    && forall i :: 0 <= i < |p| - 1 ==> Linked(adj, p[i], p[i + 1])
  }

  ghost predicate Reachable(adj: Adjacency, u: nat, v: nat) {
    exists p :: Walk(adj, u, v, p)
  }

  lemma WalkExtends(adj: Adjacency, u: nat, p: seq<nat>, e: Edge)
    requires Walk(adj, u, e.from, p) && e in Out(adj, e.from)
    ensures Walk(adj, u, e.to, p + [e.to])
  {
    var q := p + [e.to];
    forall i | 0 <= i < |q| - 1 ensures Linked(adj, q[i], q[i + 1]) {
      if i < |p| - 1 {
        assert Linked(adj, p[i], p[i + 1]);
      } else {
        assert e in Out(adj, q[i]) && e.to == q[i + 1];
      }
    }
  }

  // ----- Trees -----

  /** The nodes known after the edges of the tree, in order, have been followed. */
  function Discovered(known: set<nat>, tree: seq<Edge>): set<nat>
    decreases |tree|
  {
    if tree == [] then known else Discovered(known + {tree[0].to}, tree[1..])
  }

  /** Each edge is in the graph, leaves from a node known by then and reaches one that is not. */
  ghost predicate Grows(adj: Adjacency, known: set<nat>, tree: seq<Edge>)
    decreases |tree|
  {
    tree == [] ||
    var e := tree[0];
    e in Out(adj, e.from) && e.from in known && e.to !in known && Grows(adj, known + {e.to}, tree[1..])
  }

  lemma {:induction false} DiscoveredMeans(known: set<nat>, tree: seq<Edge>, v: nat)
    ensures v in Discovered(known, tree) <==> v in known || exists i :: 0 <= i < |tree| && tree[i].to == v
    decreases |tree|
  {
    if tree != [] {
      DiscoveredMeans(known + {tree[0].to}, tree[1..], v);
      if i :| 0 <= i < |tree[1..]| && tree[1..][i].to == v {
        assert tree[i + 1].to == v;
      }
      if i :| 0 < i < |tree| && tree[i].to == v {
        assert tree[1..][i - 1].to == v;
      }
    }
  }

  lemma {:induction false} GrowsSplit(adj: Adjacency, known: set<nat>, a: seq<Edge>, b: seq<Edge>)
    ensures Discovered(known, a + b) == Discovered(Discovered(known, a), b)
    ensures Grows(adj, known, a + b) <==> Grows(adj, known, a) && Grows(adj, Discovered(known, a), b)
    decreases |a|
  {
    if a == [] {
      assert a + b == b;
    } else {
      assert (a + b)[0] == a[0] && (a + b)[1..] == a[1..] + b;
      GrowsSplit(adj, known + {a[0].to}, a[1..], b);
    }
  }

  lemma GrowsByOne(adj: Adjacency, known: set<nat>, tree: seq<Edge>, e: Edge)
    ensures Discovered(known, tree + [e]) == Discovered(known, tree) + {e.to}
    ensures Grows(adj, known, tree + [e]) <==>
              Grows(adj, known, tree) && e in Out(adj, e.from)
              && e.from in Discovered(known, tree) && e.to !in Discovered(known, tree)
  {
    GrowsSplit(adj, known, tree, [e]);
    assert [e][1..] == [];
  }

  /** In a growing tree no node is reached twice, nor one that was known at the start. */
  lemma {:induction false} EachTargetOnce(adj: Adjacency, known: set<nat>, tree: seq<Edge>, i: nat, j: nat)
    requires Grows(adj, known, tree) && i < j < |tree|
    ensures tree[i].to != tree[j].to && tree[i].to !in known && tree[j].to !in known
    decreases |tree|
  {
    if i > 0 {
      EachTargetOnce(adj, known + {tree[0].to}, tree[1..], i - 1, j - 1);
    } else {
      TargetIsNew(adj, known + {tree[0].to}, tree[1..], j - 1);
    }
  }

  lemma {:induction false} TargetIsNew(adj: Adjacency, known: set<nat>, tree: seq<Edge>, i: nat)
    requires Grows(adj, known, tree) && i < |tree|
    ensures tree[i].to !in known
    decreases |tree|
  {
    if i > 0 { TargetIsNew(adj, known + {tree[0].to}, tree[1..], i - 1); }
  }

  /** In a tree grown from a root, an edge leaves from the root or from an earlier target. */
  lemma SourceIsEarlier(adj: Adjacency, root: nat, tree: seq<Edge>, i: nat)
    requires Grows(adj, {root}, tree) && i < |tree|
    ensures tree[i].from == root || exists j :: 0 <= j < i && tree[j].to == tree[i].from
  {
    var before, after := tree[..i], tree[i..];
    assert tree == before + after;
    GrowsSplit(adj, {root}, before, after);
    assert after[0] == tree[i];
    DiscoveredMeans({root}, before, tree[i].from);
    if j :| 0 <= j < |before| && before[j].to == tree[i].from {
      assert tree[j].to == tree[i].from;
    }
  }

  /** Following sources back from v to the root. */
  function TreePath(tree: seq<Edge>, v: nat): (p: seq<nat>)
    ensures p != []
    decreases |tree|
  {
    if tree == [] then [v]
    else
      var init, e := tree[..|tree| - 1], tree[|tree| - 1];
      if e.to == v then TreePath(init, e.from) + [v] else TreePath(init, v)
  }

  /** Following sources back gives a walk from the root. */
  lemma {:induction false} TreePathIsWalk(adj: Adjacency, root: nat, tree: seq<Edge>, v: nat)
    requires Grows(adj, {root}, tree) && v in Discovered({root}, tree)
    ensures Walk(adj, root, v, TreePath(tree, v))
    decreases |tree|
  {
    if tree != [] {
      var init, e := tree[..|tree| - 1], tree[|tree| - 1];
      assert tree == init + [e];
      GrowsByOne(adj, {root}, init, e);
      if e.to == v {
        TreePathIsWalk(adj, root, init, e.from);
        WalkExtends(adj, root, TreePath(init, e.from), e);
      } else {
        TreePathIsWalk(adj, root, init, v);
      }
    }
  }

  /** A spanning tree of what is reachable from the root: it grows from the root, edge by edge,
      and reaches exactly the reachable nodes. */
  ghost predicate SpanningTree(adj: Adjacency, root: nat, tree: seq<Edge>) {
    && Grows(adj, {root}, tree)
    && forall v :: v in Discovered({root}, tree) <==> Reachable(adj, root, v)
  }

  /** No walk from the root is shorter than the tree's own. */
  ghost predicate ShortestHops(adj: Adjacency, root: nat, tree: seq<Edge>) {
    forall v, p :: Walk(adj, root, v, p) ==> |TreePath(tree, v)| <= |p|
  }

  /** A set that holds the root and is closed under edges holds everything reachable. */
  lemma {:induction false} ClosedHoldsWalk(adj: Adjacency, closed: set<nat>, u: nat, v: nat, p: seq<nat>)
    requires forall x, e :: x in closed && e in Out(adj, x) ==> e.to in closed
    requires u in closed && Walk(adj, u, v, p)
    ensures v in closed
    decreases |p|
  {
    if |p| > 1 {
      assert Linked(adj, p[0], p[1]);
      forall i | 0 <= i < |p[1..]| - 1 ensures Linked(adj, p[1..][i], p[1..][i + 1]) {
        assert Linked(adj, p[i + 1], p[i + 2]);
      }
      ClosedHoldsWalk(adj, closed, p[1], v, p[1..]);
    }
  }

  lemma GrownAndClosedSpans(adj: Adjacency, root: nat, tree: seq<Edge>)
    requires Grows(adj, {root}, tree)
    requires forall x, e :: x in Discovered({root}, tree) && e in Out(adj, x) ==> e.to in Discovered({root}, tree)
    ensures SpanningTree(adj, root, tree)
  {
    var all := Discovered({root}, tree);
    DiscoveredMeans({root}, tree, root);
    forall v ensures v in all <==> Reachable(adj, root, v) {
      if v in all {
        TreePathIsWalk(adj, root, tree, v);
      }
      if Reachable(adj, root, v) {
        var p :| Walk(adj, root, v, p);
        ClosedHoldsWalk(adj, all, root, v, p);
      }
    }
  }

  // ----- Depth-first search -----

  datatype Visit = Visit(visited: set<nat>, tree: seq<Edge>)

  /** Every edge leads into the given finite set of nodes. */
  ghost predicate Inside(adj: Adjacency, all: set<nat>) {
    forall u, e :: e in Out(adj, u) ==> e.to in all
  }

  /** What dfs_recursive adds for a node: mark it, then go through its edges. */
  ghost function DfsNode(adj: Adjacency, all: set<nat>, node: nat, visited: set<nat>): (r: Visit)
    requires Inside(adj, all)
    ensures visited + {node} <= r.visited
    decreases all - (visited + {node}), 1, 0
  {
    DfsEdges(adj, all, Out(adj, node), visited + {node})
  }

  ghost function DfsEdges(adj: Adjacency, all: set<nat>, edges: seq<Edge>, visited: set<nat>): (r: Visit)
    requires Inside(adj, all) && forall e :: e in edges ==> e.to in all
    ensures visited <= r.visited
    decreases all - visited, 0, |edges|
  {
    if edges == [] then Visit(visited, [])
    else if edges[0].to in visited then DfsEdges(adj, all, edges[1..], visited)
    else
      assert edges[0] in edges;
      var sub := DfsNode(adj, all, edges[0].to, visited);
      assert all - sub.visited <= all - visited;
      var rest := DfsEdges(adj, all, edges[1..], sub.visited);
      Visit(rest.visited, [edges[0]] + sub.tree + rest.tree)
  }

  /** What a depth-first visit guarantees: the tree grows from the visited nodes and reaches
      exactly the newly visited ones, none of which has an edge out of the visited set. */
  ghost predicate GoodVisit(adj: Adjacency, visited: set<nat>, r: Visit) {
    && Grows(adj, visited, r.tree)
    && r.visited == Discovered(visited, r.tree)
    && forall x, e :: x in r.visited && x !in visited && e in Out(adj, x) ==> e.to in r.visited
  }

  lemma {:induction false} DfsNodeGood(adj: Adjacency, all: set<nat>, node: nat, visited: set<nat>)
    requires Filed(adj) && Inside(adj, all)
    ensures GoodVisit(adj, visited + {node}, DfsNode(adj, all, node, visited))
    ensures forall e :: e in Out(adj, node) ==> e.to in DfsNode(adj, all, node, visited).visited
    decreases all - (visited + {node}), 1, 0
  {
    DfsEdgesGood(adj, all, node, Out(adj, node), visited + {node});
  }

  lemma {:induction false} DfsEdgesGood(adj: Adjacency, all: set<nat>, node: nat, edges: seq<Edge>, visited: set<nat>)
    requires Filed(adj) && Inside(adj, all) && node in visited
    requires forall e :: e in edges ==> e in Out(adj, node)
    ensures GoodVisit(adj, visited, DfsEdges(adj, all, edges, visited))
    ensures forall e :: e in edges ==> e.to in DfsEdges(adj, all, edges, visited).visited
    decreases all - visited, 0, |edges|
  {
    if edges != [] {
      var first, later := edges[0], edges[1..];
      assert first in edges;
      if first.to in visited {
        DfsEdgesGood(adj, all, node, later, visited);
      } else {
        var sub := DfsNode(adj, all, first.to, visited);
        DfsNodeGood(adj, all, first.to, visited);
        assert all - sub.visited <= all - visited;
        DfsEdgesGood(adj, all, node, later, sub.visited);
        var rest := DfsEdges(adj, all, later, sub.visited);
        assert first.from == node;
        GrowsByOne(adj, visited, [], first);
        assert [] + [first] == [first];
        GrowsSplit(adj, visited, [first], sub.tree);
        GrowsSplit(adj, visited, [first] + sub.tree, rest.tree);
      }
    }
  }

  /** Depth-first search from a node spans what is reachable from it. */
  lemma DfsSpans(adj: Adjacency, all: set<nat>, start: nat)
    requires Filed(adj) && Inside(adj, all)
    ensures SpanningTree(adj, start, DfsNode(adj, all, start, {}).tree)
    ensures DfsNode(adj, all, start, {}).visited == Discovered({start}, DfsNode(adj, all, start, {}).tree)
  {
    DfsNodeGood(adj, all, start, {});
    assert {} + {start} == {start};
    GrownAndClosedSpans(adj, start, DfsNode(adj, all, start, {}).tree);
  }

  // ----- The depth-first order -----

  /** Every edge out of x leads to a known node. */
  ghost predicate Finished(adj: Adjacency, x: nat, known: set<nat>) {
    forall e :: e in Out(adj, x) ==> e.to in known
  }

  /** e is an edge of its source before which all lead to known nodes. */
  ghost predicate FirstOpen(adj: Adjacency, known: set<nat>, e: Edge) {
    exists n :: 0 <= n < |Out(adj, e.from)| && Out(adj, e.from)[n] == e
      && forall m :: 0 <= m < n ==> Out(adj, e.from)[m].to in known
  }

  /** The node reached by edge j was reached after the source of edge i. */
  ghost predicate ReachedAfterSource(tree: seq<Edge>, j: nat, i: nat)
    requires i < |tree|
  {
    j < i && forall m :: j <= m < i ==> tree[m].to != tree[i].from
  }

  /** Edge i is the first open edge of the most recently reached node that still has one. */
  ghost predicate DepthFirstAt(adj: Adjacency, known: set<nat>, tree: seq<Edge>, i: nat)
    requires i < |tree|
  {
    var now := Discovered(known, tree[..i]);
    && FirstOpen(adj, now, tree[i])
    && forall j: nat :: ReachedAfterSource(tree, j, i) ==> Finished(adj, tree[j].to, now)
  }

  ghost predicate DepthFirst(adj: Adjacency, known: set<nat>, tree: seq<Edge>) {
    forall i: nat :: i < |tree| ==> DepthFirstAt(adj, known, tree, i)
  }

  /** Edge i leaves from the node or from the target of an earlier edge. */
  ghost predicate Sourced(node: nat, tree: seq<Edge>, i: nat)
    requires i < |tree|
  {
    tree[i].from == node || exists m :: 0 <= m < i && tree[m].to == tree[i].from
  }

  ghost predicate SourcedIn(node: nat, tree: seq<Edge>) {
    forall i: nat :: i < |tree| ==> Sourced(node, tree, i)
  }

  lemma SourcedDown(first: Edge, sub: seq<Edge>, i: nat)
    requires SourcedIn(first.to, sub) && i < |sub|
    ensures Sourced(first.from, [first] + sub, i + 1) && !ReachedAfterSource([first] + sub, 0, i + 1)
  {
    var tree := [first] + sub;
    assert Sourced(first.to, sub, i) && tree[i + 1] == sub[i];
    if sub[i].from == first.to {
      assert tree[0].to == tree[i + 1].from;
    } else {
      var m :| 0 <= m < i && sub[m].to == sub[i].from;
      assert tree[m + 1].to == tree[i + 1].from;
    }
  }

  lemma ReachedBelow(first: Edge, sub: seq<Edge>, j: nat, i: nat)
    requires i < |sub| && 0 < j && ReachedAfterSource([first] + sub, j, i + 1)
    ensures ReachedAfterSource(sub, j - 1, i)
  {
    var tree := [first] + sub;
    assert tree[i + 1] == sub[i];
    forall m | j - 1 <= m < i ensures sub[m].to != sub[i].from { assert tree[m + 1] == sub[m]; }
  }

  lemma DepthFirstDownAt(adj: Adjacency, known: set<nat>, first: Edge, sub: seq<Edge>, i: nat)
    requires i < |sub| && DepthFirstAt(adj, known + {first.to}, sub, i) && !ReachedAfterSource([first] + sub, 0, i + 1)
    ensures DepthFirstAt(adj, known, [first] + sub, i + 1)
  {
    var tree := [first] + sub;
    assert tree[i + 1] == sub[i] && tree[..i + 1][1..] == sub[..i];
    forall j: nat | ReachedAfterSource(tree, j, i + 1)
      ensures Finished(adj, tree[j].to, Discovered(known, tree[..i + 1]))
    {
      ReachedBelow(first, sub, j, i);
      assert sub[j - 1] == tree[j];
    }
  }

  /** Going down an edge. */
  lemma DepthFirstDown(adj: Adjacency, known: set<nat>, first: Edge, sub: seq<Edge>)
    requires FirstOpen(adj, known, first) && DepthFirst(adj, known + {first.to}, sub) && SourcedIn(first.to, sub)
    ensures DepthFirst(adj, known, [first] + sub) && SourcedIn(first.from, [first] + sub)
  {
    var tree := [first] + sub;
    forall i: nat | i < |tree| ensures DepthFirstAt(adj, known, tree, i) && Sourced(first.from, tree, i) {
      if i > 0 {
        SourcedDown(first, sub, i - 1);
        DepthFirstDownAt(adj, known, first, sub, i - 1);
      }
    }
  }

  lemma SourcedOn(node: nat, a: seq<Edge>, b: seq<Edge>, i: nat)
    requires SourcedIn(node, a) && SourcedIn(node, b) && i < |a| + |b|
    ensures Sourced(node, a + b, i)
  {
    var tree := a + b;
    if i < |a| {
      assert Sourced(node, a, i);
      if a[i].from != node {
        var m :| 0 <= m < i && a[m].to == a[i].from;
        assert tree[m].to == tree[i].from;
      }
    } else {
      assert Sourced(node, b, i - |a|);
      if b[i - |a|].from != node {
        var m :| 0 <= m < i - |a| && b[m].to == b[i - |a|].from;
        assert tree[|a| + m].to == tree[i].from;
      }
    }
  }

  lemma DepthFirstBefore(adj: Adjacency, known: set<nat>, a: seq<Edge>, b: seq<Edge>, i: nat)
    requires i < |a| && DepthFirstAt(adj, known, a, i)
    ensures DepthFirstAt(adj, known, a + b, i)
  {
    var tree := a + b;
    assert tree[..i] == a[..i];
    forall j: nat | ReachedAfterSource(tree, j, i) ensures Finished(adj, tree[j].to, Discovered(known, a[..i])) {
      forall m | j <= m < i ensures a[m].to != a[i].from { assert tree[m] == a[m]; }
      assert ReachedAfterSource(a, j, i) && tree[j] == a[j];
    }
  }

  ghost predicate AllFinished(adj: Adjacency, tree: seq<Edge>, known: set<nat>) {
    forall j :: 0 <= j < |tree| ==> Finished(adj, tree[j].to, known)
  }

  lemma FinishedStays(adj: Adjacency, x: nat, known: set<nat>, more: seq<Edge>)
    requires Finished(adj, x, known)
    ensures Finished(adj, x, Discovered(known, more))
  {
    forall e | e in Out(adj, x) ensures e.to in Discovered(known, more) { DiscoveredMeans(known, more, e.to); }
  }

  lemma ReachedBeyond(a: seq<Edge>, b: seq<Edge>, j: nat, i: nat)
    requires i < |b| && |a| <= j && ReachedAfterSource(a + b, j, |a| + i)
    ensures ReachedAfterSource(b, j - |a|, i)
  {
    forall m | j - |a| <= m < i ensures b[m].to != b[i].from { assert (a + b)[|a| + m] == b[m]; }
  }

  lemma DepthFirstOnAt(adj: Adjacency, known: set<nat>, a: seq<Edge>, b: seq<Edge>, i: nat, k: nat)
    requires i < |b| && k == |a| + i && DepthFirstAt(adj, Discovered(known, a), b, i)
    requires AllFinished(adj, a, Discovered(known, a))
    ensures DepthFirstAt(adj, known, a + b, k)
  {
    var tree := a + b;
    assert tree[..k] == a + b[..i] && tree[k] == b[i];
    GrowsSplit(adj, known, a, b[..i]);
    forall j: nat | ReachedAfterSource(tree, j, k) ensures Finished(adj, tree[j].to, Discovered(known, tree[..k])) {
      if j < |a| {
        FinishedStays(adj, a[j].to, Discovered(known, a), b[..i]);
      } else {
        ReachedBeyond(a, b, j, i);
        assert b[j - |a|] == tree[j];
      }
    }
  }

  /** Going on after a part whose nodes are all finished. */
  lemma DepthFirstOn(adj: Adjacency, known: set<nat>, a: seq<Edge>, b: seq<Edge>)
    requires DepthFirst(adj, known, a) && DepthFirst(adj, Discovered(known, a), b)
    requires AllFinished(adj, a, Discovered(known, a))
    ensures DepthFirst(adj, known, a + b)
  {
    forall i: nat | i < |a| ensures DepthFirstAt(adj, known, a + b, i) {
      DepthFirstBefore(adj, known, a, b, i);
    }
    forall i: nat | |a| <= i < |a + b| ensures DepthFirstAt(adj, known, a + b, i) {
      assert DepthFirstAt(adj, Discovered(known, a), b, i - |a|);
      DepthFirstOnAt(adj, known, a, b, i - |a|, i);
    }
  }

  lemma SourcedJoin(node: nat, a: seq<Edge>, b: seq<Edge>)
    requires SourcedIn(node, a) && SourcedIn(node, b)
    ensures SourcedIn(node, a + b)
  {
    forall i: nat | i < |a + b| ensures Sourced(node, a + b, i) { SourcedOn(node, a, b, i); }
  }

  lemma {:induction false} DfsEdgesDepthFirst(adj: Adjacency, all: set<nat>, node: nat,
                                              done: seq<Edge>, edges: seq<Edge>, visited: set<nat>)
    requires Filed(adj) && Inside(adj, all) && node in visited
    requires Out(adj, node) == done + edges && forall e :: e in done ==> e.to in visited
    ensures DepthFirst(adj, visited, DfsEdges(adj, all, edges, visited).tree)
    ensures SourcedIn(node, DfsEdges(adj, all, edges, visited).tree)
    decreases all - visited, 0, |edges|
  {
    if edges != [] {
      var first, later := edges[0], edges[1..];
      assert done + edges == (done + [first]) + later;
      assert first == (done + edges)[|done|];
      if first.to in visited {
        DfsEdgesDepthFirst(adj, all, node, done + [first], later, visited);
      } else {
        var sub := DfsNode(adj, all, first.to, visited);
        DfsNodeGood(adj, all, first.to, visited);
        DfsEdgesDepthFirst(adj, all, first.to, [], Out(adj, first.to), visited + {first.to});
        assert all - sub.visited <= all - visited;
        DfsEdgesDepthFirst(adj, all, node, done + [first], later, sub.visited);
        DfsPartJoins(adj, visited, done, first, sub, DfsEdges(adj, all, later, sub.visited).tree);
      }
    }
  }

  lemma DfsPartJoins(adj: Adjacency, visited: set<nat>, done: seq<Edge>, first: Edge, sub: Visit, rest: seq<Edge>)
    requires done + [first] <= Out(adj, first.from) && forall e :: e in done ==> e.to in visited
    requires GoodVisit(adj, visited + {first.to}, sub) && Finished(adj, first.to, sub.visited)
    requires DepthFirst(adj, visited + {first.to}, sub.tree) && SourcedIn(first.to, sub.tree)
    requires DepthFirst(adj, sub.visited, rest) && SourcedIn(first.from, rest)
    ensures DepthFirst(adj, visited, [first] + sub.tree + rest) && SourcedIn(first.from, [first] + sub.tree + rest)
  {
    var out, a := Out(adj, first.from), [first] + sub.tree;
    assert out[|done|] == first && forall m :: 0 <= m < |done| ==> out[m] == done[m];
    DepthFirstDown(adj, visited, first, sub.tree);
    assert Discovered(visited, a) == sub.visited by { assert a[1..] == sub.tree; }
    forall j | 0 <= j < |a| ensures Finished(adj, a[j].to, sub.visited) {
      if j > 0 {
        TargetIsNew(adj, visited + {first.to}, sub.tree, j - 1);
        DiscoveredMeans(visited + {first.to}, sub.tree, a[j].to);
      }
    }
    DepthFirstOn(adj, visited, a, rest);
    SourcedJoin(first.from, a, rest);
  }

  /** Depth-first search always takes the first open edge of the most recently reached node
      that still has one. */
  lemma DfsIsDepthFirst(adj: Adjacency, all: set<nat>, start: nat)
    requires Filed(adj) && Inside(adj, all)
    ensures DepthFirst(adj, {start}, DfsNode(adj, all, start, {}).tree)
  {
    assert {} + {start} == {start} && [] + Out(adj, start) == Out(adj, start);
    DfsEdgesDepthFirst(adj, all, start, [], Out(adj, start), {start});
  }

  /** The state of a growing tree when edge i is recorded. */
  lemma EdgeAt(adj: Adjacency, known: set<nat>, tree: seq<Edge>, i: nat)
    requires Grows(adj, known, tree) && i < |tree|
    ensures var now := Discovered(known, tree[..i]);
      tree[i] in Out(adj, tree[i].from) && tree[i].from in now && tree[i].to !in now
  {
    assert tree == tree[..i] + tree[i..] && tree[i..][0] == tree[i];
    GrowsSplit(adj, known, tree[..i], tree[i..]);
  }

  /** A node reached before edge i, but after its source, is finished. */
  lemma LaterIsFinished(adj: Adjacency, root: nat, tree: seq<Edge>, i: nat, j: nat)
    requires Grows(adj, {root}, tree) && DepthFirst(adj, {root}, tree) && j < i < |tree|
    requires tree[i].from == root || exists k :: 0 <= k < j && tree[k].to == tree[i].from
    ensures Finished(adj, tree[j].to, Discovered({root}, tree[..i]))
  {
    forall m | j <= m < i ensures tree[m].to != tree[i].from {
      if tree[i].from == root {
        TargetIsNew(adj, {root}, tree, m);
      } else {
        var k :| 0 <= k < j && tree[k].to == tree[i].from;
        EachTargetOnce(adj, {root}, tree, k, m);
      }
    }
    assert DepthFirstAt(adj, {root}, tree, i) && ReachedAfterSource(tree, j, i);
  }

  /** No source can be reached after the other tree's. */
  lemma SourceIsNotLater(adj: Adjacency, root: nat, t: seq<Edge>, t': seq<Edge>, i: nat, j: nat)
    requires Grows(adj, {root}, t) && DepthFirst(adj, {root}, t) && Grows(adj, {root}, t')
    requires j < i < |t| && i < |t'| && t[..i] == t'[..i] && t[j].to == t'[i].from
    ensures t[i].from != root && forall k :: 0 <= k < j ==> t[k].to != t[i].from
  {
    EdgeAt(adj, {root}, t', i);
    if t[i].from == root || exists k :: 0 <= k < j && t[k].to == t[i].from {
      LaterIsFinished(adj, root, t, i, j);
    }
  }

  lemma SourcesAgree(adj: Adjacency, root: nat, t: seq<Edge>, t': seq<Edge>, i: nat)
    requires Grows(adj, {root}, t) && DepthFirst(adj, {root}, t)
    requires Grows(adj, {root}, t') && DepthFirst(adj, {root}, t')
    requires i < |t| && i < |t'| && t[..i] == t'[..i]
    ensures t[i].from == t'[i].from
  {
    SourceIsEarlier(adj, root, t, i);
    SourceIsEarlier(adj, root, t', i);
    assert forall k :: 0 <= k < i ==> t[k] == t[..i][k] == t'[k];
    if t[i].from != root {
      var j :| 0 <= j < i && t[j].to == t[i].from;
      SourceIsNotLater(adj, root, t', t, i, j);
      var j' :| 0 <= j' < i && t'[j'].to == t'[i].from;
      SourceIsNotLater(adj, root, t, t', i, j');
    } else if t'[i].from != root {
      var j' :| 0 <= j' < i && t'[j'].to == t'[i].from;
      SourceIsNotLater(adj, root, t, t', i, j');
    }
  }

  lemma FirstOpenIsUnique(adj: Adjacency, known: set<nat>, e: Edge, e': Edge)
    requires FirstOpen(adj, known, e) && FirstOpen(adj, known, e')
    requires e.from == e'.from && e.to !in known && e'.to !in known
    ensures e == e'
  {
  }

  lemma NextEdgesAgree(adj: Adjacency, root: nat, t: seq<Edge>, t': seq<Edge>, i: nat)
    requires Grows(adj, {root}, t) && DepthFirst(adj, {root}, t)
    requires Grows(adj, {root}, t') && DepthFirst(adj, {root}, t')
    requires i < |t| && i < |t'| && t[..i] == t'[..i]
    ensures t[i] == t'[i]
  {
    SourcesAgree(adj, root, t, t', i);
    EdgeAt(adj, {root}, t, i);
    EdgeAt(adj, {root}, t', i);
    assert DepthFirstAt(adj, {root}, t, i) && DepthFirstAt(adj, {root}, t', i);
    FirstOpenIsUnique(adj, Discovered({root}, t[..i]), t[i], t'[i]);
  }

  lemma {:induction false} PrefixesAgree(adj: Adjacency, root: nat, t: seq<Edge>, t': seq<Edge>, n: nat)
    requires Grows(adj, {root}, t) && DepthFirst(adj, {root}, t)
    requires Grows(adj, {root}, t') && DepthFirst(adj, {root}, t')
    requires n <= |t| && n <= |t'|
    ensures t[..n] == t'[..n]
    decreases n
  {
    if n > 0 {
      var i := n - 1;
      PrefixesAgree(adj, root, t, t', i);
      NextEdgesAgree(adj, root, t, t', i);
      assert t[..n] == t[..i] + [t[i]] && t'[..n] == t'[..i] + [t'[i]];
    }
  }

  lemma NotShorter(adj: Adjacency, root: nat, t: seq<Edge>, t': seq<Edge>)
    requires SpanningTree(adj, root, t) && SpanningTree(adj, root, t') && t <= t'
    ensures t == t'
  {
    if |t| < |t'| {
      var v := t'[|t|].to;
      assert t'[..|t|] == t;
      DiscoveredMeans({root}, t', v);
      EdgeAt(adj, {root}, t', |t|);
      assert false;
    }
  }

  /** The order determines the tree: the depth-first spanning tree is the only one. */
  lemma DepthFirstIsUnique(adj: Adjacency, root: nat, t: seq<Edge>, t': seq<Edge>)
    requires SpanningTree(adj, root, t) && DepthFirst(adj, {root}, t)
    requires SpanningTree(adj, root, t') && DepthFirst(adj, {root}, t')
    ensures t == t'
  {
    var n := if |t| <= |t'| then |t| else |t'|;
    PrefixesAgree(adj, root, t, t', n);
    if |t| <= |t'| {
      assert t == t[..n] && t' == t'[..n] + t'[n..];
      NotShorter(adj, root, t, t');
    } else {
      assert t' == t'[..n] && t == t[..n] + t[n..];
      NotShorter(adj, root, t', t);
    }
  }

  // ----- Breadth-first search -----

  /** The local variables of bfs_traversal; the paths are recorded as their edges. */
  datatype Bfs = Bfs(queue: seq<nat>, visited: set<nat>, tree: seq<Edge>)

  /** Record, mark and enqueue the target of an edge, unless it has been visited. */
  function FollowOne(e: Edge, b: Bfs): Bfs {
    if e.to in b.visited then b else Bfs(b.queue + [e.to], b.visited + {e.to}, b.tree + [e])
  }

  /** The inner loop: do so with every edge in turn. */
  function FollowEdges(edges: seq<Edge>, b: Bfs): (r: Bfs)
    ensures b.visited <= r.visited
    ensures forall v :: v in r.visited && v !in b.visited ==> exists e :: e in edges && e.to == v
    ensures r.visited == b.visited ==> r.queue == b.queue
    decreases |edges|
  {
    if edges == [] then b else FollowEdges(edges[1..], FollowOne(edges[0], b))
  }

  /** One round of the outer loop: take the front of the queue and follow its edges. */
  ghost function BfsRound(adj: Adjacency, all: set<nat>, b: Bfs): (r: Bfs)
    requires Inside(adj, all) && b.queue != []
    ensures all - r.visited < all - b.visited || (r.visited == b.visited && |r.queue| < |b.queue|)
  {
    var r := FollowEdges(Out(adj, b.queue[0]), b.(queue := b.queue[1..]));
    assert all - r.visited <= all - b.visited;
    assert r.visited != b.visited ==> exists v :: v in r.visited && v in all && v !in b.visited;
    r
  }

  ghost function BfsLoop(adj: Adjacency, all: set<nat>, b: Bfs): Bfs
    requires Inside(adj, all)
    decreases all - b.visited, |b.queue|
  {
    if b.queue == [] then b else BfsLoop(adj, all, BfsRound(adj, all, b))
  }

  /** The edges that bfs_traversal records. */
  ghost function BfsTree(adj: Adjacency, all: set<nat>, start: nat): seq<Edge>
    requires Inside(adj, all)
  {
    BfsLoop(adj, all, Bfs([start], {start}, [])).tree
  }

  /** v has been found, at most one hop beyond h. */
  ghost predicate FoundWithin(order: seq<nat>, hops: seq<nat>, v: nat, h: nat)
    requires |order| == |hops|
  {
    exists j :: 0 <= j < |order| && order[j] == v && hops[j] <= h + 1
  }

  /** The nodes in order of discovery, and the number of hops in the tree at which each was found. */
  ghost predicate Ordered(adj: Adjacency, start: nat, b: Bfs, order: seq<nat>, hops: seq<nat>) {
    && |order| == |hops| > 0
    && order[0] == start && hops[0] == 0
    && Grows(adj, {start}, b.tree)
    && b.visited == Discovered({start}, b.tree)
    && (forall v :: v in order <==> v in b.visited)
    && (forall i :: 0 <= i < |order| ==> |TreePath(b.tree, order[i])| == hops[i] + 1)
  }

  /** Hops only grow along the order, and never by more than one beyond the head of the queue. */
  ghost predicate Layered(hops: seq<nat>, head: nat) {
    && head < |hops|
    && (forall i, j :: 0 <= i < j < |hops| ==> hops[i] <= hops[j])
    && (forall j :: 0 <= j < |hops| ==> hops[j] <= hops[head] + 1)
  }

  /** The edges of every node before head have been followed. */
  ghost predicate Followed(adj: Adjacency, order: seq<nat>, hops: seq<nat>, head: nat)
    requires |order| == |hops|
  {
    forall i, e :: 0 <= i < head && i < |order| && e in Out(adj, order[i]) ==> FoundWithin(order, hops, e.to, hops[i])
  }

  lemma FoundStays(order: seq<nat>, hops: seq<nat>, v: nat, h: nat, w: nat, k: nat)
    requires |order| == |hops| && FoundWithin(order, hops, v, h)
    ensures FoundWithin(order + [w], hops + [k], v, h)
  {
    var j :| 0 <= j < |order| && order[j] == v && hops[j] <= h + 1;
    assert (order + [w])[j] == v;
  }

  lemma TreePathsStay(order: seq<nat>, hops: seq<nat>, tree: seq<Edge>, e: Edge, head: nat)
    requires |order| == |hops| && head < |order| && e.from == order[head] && e.to !in order
    requires forall i :: 0 <= i < |order| ==> |TreePath(tree, order[i])| == hops[i] + 1
    ensures var order', hops' := order + [e.to], hops + [hops[head] + 1];
      forall i :: 0 <= i < |order'| ==> |TreePath(tree + [e], order'[i])| == hops'[i] + 1
  {
    assert (tree + [e])[..|tree|] == tree;
    forall i | 0 <= i < |order| ensures TreePath(tree + [e], order[i]) == TreePath(tree, order[i]) {
      assert order[i] in order;
    }
  }

  /** Recording an edge out of the head of the queue to a new node. */
  lemma OrderedGrows(adj: Adjacency, start: nat, b: Bfs, order: seq<nat>, hops: seq<nat>, head: nat, e: Edge)
    requires Ordered(adj, start, b, order, hops) && head < |order|
    requires e in Out(adj, order[head]) && e.from == order[head] && e.to !in b.visited
    ensures Ordered(adj, start, Bfs(b.queue + [e.to], b.visited + {e.to}, b.tree + [e]),
                    order + [e.to], hops + [hops[head] + 1])
  {
    assert order[head] in order;
    GrowsByOne(adj, {start}, b.tree, e);
    TreePathsStay(order, hops, b.tree, e, head);
  }

  /** All the given edges, and those of the nodes before head, lead to nodes found in time. */
  ghost predicate Done(adj: Adjacency, order: seq<nat>, hops: seq<nat>, head: nat, done: seq<Edge>)
    requires |order| == |hops|
  {
    && Layered(hops, head) && Followed(adj, order, hops, head)
    && forall e :: e in done ==> FoundWithin(order, hops, e.to, hops[head])
  }

  lemma DoneGrows(adj: Adjacency, order: seq<nat>, hops: seq<nat>, head: nat, done: seq<Edge>, e: Edge)
    requires |order| == |hops| && Done(adj, order, hops, head, done)
    ensures Done(adj, order + [e.to], hops + [hops[head] + 1], head, done + [e])
  {
    var order', hops' := order + [e.to], hops + [hops[head] + 1];
    forall i, f | 0 <= i < head && f in Out(adj, order'[i]) ensures FoundWithin(order', hops', f.to, hops'[i]) {
      FoundStays(order, hops, f.to, hops[i], e.to, hops[head] + 1);
    }
    forall f | f in done + [e] ensures FoundWithin(order', hops', f.to, hops'[head]) {
      if f in done {
        FoundStays(order, hops, f.to, hops[head], e.to, hops[head] + 1);
      } else {
        assert order'[|order|] == f.to;
      }
    }
  }

  lemma DoneAlready(adj: Adjacency, order: seq<nat>, hops: seq<nat>, head: nat, done: seq<Edge>, e: Edge)
    requires |order| == |hops| && Done(adj, order, hops, head, done) && e.to in order
    ensures Done(adj, order, hops, head, done + [e])
  {
    var j :| 0 <= j < |order| && order[j] == e.to;
    assert FoundWithin(order, hops, e.to, hops[head]);
  }

  /** The state inside a round: the queue starts behind head, and the edges in done have been followed. */
  ghost predicate Following(adj: Adjacency, start: nat, b: Bfs, order: seq<nat>, hops: seq<nat>, head: nat,
                            done: seq<Edge>)
  {
    Ordered(adj, start, b, order, hops) && Done(adj, order, hops, head, done) && b.queue == order[head + 1..]
  }

  /** One pass of the inner loop. */
  lemma FollowOneKeeps(adj: Adjacency, start: nat, e: Edge, b: Bfs, order: seq<nat>, hops: seq<nat>, head: nat,
                       done: seq<Edge>)
    returns (order': seq<nat>, hops': seq<nat>)
    requires Following(adj, start, b, order, hops, head, done) && e in Out(adj, order[head]) && e.from == order[head]
    ensures Following(adj, start, FollowOne(e, b), order', hops', head, done + [e]) && order <= order'
  {
    if e.to in b.visited {
      DoneAlready(adj, order, hops, head, done, e);
      order', hops' := order, hops;
    } else {
      OrderedGrows(adj, start, b, order, hops, head, e);
      DoneGrows(adj, order, hops, head, done, e);
      order', hops' := order + [e.to], hops + [hops[head] + 1];
      assert order'[head + 1..] == order[head + 1..] + [e.to];
    }
  }

  /** The inner loop keeps the order, and leaves every target of its edges found. */
  lemma {:induction false} FollowEdgesKeeps(adj: Adjacency, start: nat, edges: seq<Edge>, b: Bfs,
                                            order: seq<nat>, hops: seq<nat>, head: nat, done: seq<Edge>)
    returns (order': seq<nat>, hops': seq<nat>)
    requires Following(adj, start, b, order, hops, head, done)
    requires forall e :: e in edges ==> e in Out(adj, order[head]) && e.from == order[head]
    ensures Following(adj, start, FollowEdges(edges, b), order', hops', head, done + edges) && order <= order'
    decreases |edges|
  {
    if edges == [] {
      order', hops' := order, hops;
      assert done + edges == done;
    } else {
      assert done + edges == (done + [edges[0]]) + edges[1..];
      order', hops' := FollowOneKeeps(adj, start, edges[0], b, order, hops, head, done);
      var b1 := FollowOne(edges[0], b);
      order', hops' := FollowEdgesKeeps(adj, start, edges[1..], b1, order', hops', head, done + [edges[0]]);
    }
  }

  lemma HeadMoves(adj: Adjacency, order: seq<nat>, hops: seq<nat>, head: nat)
    requires |order| == |hops| && head < |order| && Done(adj, order, hops, head, Out(adj, order[head]))
    ensures Followed(adj, order, hops, head + 1) && (head + 1 < |order| ==> Layered(hops, head + 1))
  {
  }

  /** The queue holds the nodes from head on, and those before it are done with. */
  ghost predicate AtHead(adj: Adjacency, start: nat, b: Bfs, order: seq<nat>, hops: seq<nat>, head: nat) {
    && Ordered(adj, start, b, order, hops) && Followed(adj, order, hops, head)
    && head <= |order| && b.queue == order[head..] && (head < |order| ==> Layered(hops, head))
  }

  /** One round of the outer loop moves the head by one. */
  lemma BfsRoundKeeps(adj: Adjacency, all: set<nat>, start: nat, b: Bfs, order: seq<nat>, hops: seq<nat>, head: nat)
    returns (order': seq<nat>, hops': seq<nat>)
    requires Filed(adj) && Inside(adj, all) && b.queue != [] && AtHead(adj, start, b, order, hops, head)
    ensures AtHead(adj, start, BfsRound(adj, all, b), order', hops', head + 1)
  {
    var edges := Out(adj, order[head]);
    order', hops' := FollowEdgesKeeps(adj, start, edges, b.(queue := b.queue[1..]), order, hops, head, []);
    assert [] + edges == edges && order'[head] == order[head];
    HeadMoves(adj, order', hops', head);
  }

  /** When the queue has run dry, the order is complete and all edges have been followed. */
  lemma {:induction false} BfsLoopKeeps(adj: Adjacency, all: set<nat>, start: nat, b: Bfs,
                                        order: seq<nat>, hops: seq<nat>, head: nat)
    returns (order': seq<nat>, hops': seq<nat>)
    requires Filed(adj) && Inside(adj, all) && AtHead(adj, start, b, order, hops, head)
    ensures Ordered(adj, start, BfsLoop(adj, all, b), order', hops') && Followed(adj, order', hops', |order'|)
    decreases all - b.visited, |b.queue|
  {
    if b.queue == [] {
      order', hops' := order, hops;
    } else {
      order', hops' := BfsRoundKeeps(adj, all, start, b, order, hops, head);
      order', hops' := BfsLoopKeeps(adj, all, start, BfsRound(adj, all, b), order', hops', head + 1);
    }
  }

  /** With every node's edges followed, the hops are the lengths of shortest walks. */
  lemma {:induction false} HopsAreShortest(adj: Adjacency, start: nat, b: Bfs, order: seq<nat>, hops: seq<nat>,
                                           v: nat, p: seq<nat>) returns (k: nat)
    requires Ordered(adj, start, b, order, hops) && Followed(adj, order, hops, |order|) && Walk(adj, start, v, p)
    ensures k < |order| && order[k] == v && hops[k] < |p|
    decreases |p|
  {
    if |p| == 1 {
      k := 0;
    } else {
      var q, u := p[..|p| - 1], p[|p| - 2];
      assert Walk(adj, start, u, q) by {
        forall i | 0 <= i < |q| - 1 ensures Linked(adj, q[i], q[i + 1]) { assert Linked(adj, p[i], p[i + 1]); }
      }
      var i := HopsAreShortest(adj, start, b, order, hops, u, q);
      assert Linked(adj, p[|p| - 2], p[|p| - 2 + 1]);
      var e :| e in Out(adj, u) && e.to == v;
      assert FoundWithin(order, hops, e.to, hops[i]);
      k :| 0 <= k < |order| && order[k] == v && hops[k] <= hops[i] + 1;
    }
  }

  /** Breadth-first search from a node spans what is reachable from it, along shortest walks. */
  lemma BfsSpans(adj: Adjacency, all: set<nat>, start: nat)
    requires Filed(adj) && Inside(adj, all)
    ensures SpanningTree(adj, start, BfsTree(adj, all, start)) && ShortestHops(adj, start, BfsTree(adj, all, start))
  {
    var order, hops := BfsLoopKeeps(adj, all, start, Bfs([start], {start}, []), [start], [0], 0);
    var b := BfsLoop(adj, all, Bfs([start], {start}, []));
    forall x, e | x in Discovered({start}, b.tree) && e in Out(adj, x) ensures e.to in Discovered({start}, b.tree) {
      assert x in order;
      var i :| 0 <= i < |order| && order[i] == x;
      assert FoundWithin(order, hops, e.to, hops[i]);
    }
    GrownAndClosedSpans(adj, start, b.tree);
    forall v, p | Walk(adj, start, v, p) ensures |TreePath(b.tree, v)| <= |p| {
      var k := HopsAreShortest(adj, start, b, order, hops, v, p);
    }
  }

  // ----- The breadth-first order -----

  /** The nodes in the order in which a tree reaches them. */
  function Order(root: nat, tree: seq<Edge>): seq<nat> {
    [root] + seq(|tree|, i requires 0 <= i < |tree| => tree[i].to)
  }

  /** Edge i is the first open edge of the h-th node reached, and the nodes before that are finished. */
  ghost predicate BreadthFirstFrom(adj: Adjacency, root: nat, tree: seq<Edge>, i: nat, h: nat)
    requires i < |tree|
  {
    var now := Discovered({root}, tree[..i]);
    && h <= i && Order(root, tree)[h] == tree[i].from && FirstOpen(adj, now, tree[i])
    && forall k :: 0 <= k < h ==> Finished(adj, Order(root, tree)[k], now)
  }

  ghost predicate BreadthFirstAt(adj: Adjacency, root: nat, tree: seq<Edge>, i: nat)
    requires i < |tree|
  {
    exists h :: BreadthFirstFrom(adj, root, tree, i, h)
  }

  /** Every edge is the first open edge of the earliest reached node that still has one. */
  ghost predicate BreadthFirst(adj: Adjacency, root: nat, tree: seq<Edge>) {
    forall i: nat :: i < |tree| ==> BreadthFirstAt(adj, root, tree, i)
  }

  lemma BreadthFirstPrefix(adj: Adjacency, root: nat, tree: seq<Edge>, more: seq<Edge>, i: nat, h: nat)
    requires i < |tree|
    ensures BreadthFirstFrom(adj, root, tree, i, h) <==> BreadthFirstFrom(adj, root, tree + more, i, h)
  {
    assert (tree + more)[..i] == tree[..i] && (tree + more)[i] == tree[i];
    assert forall k :: 0 <= k <= |tree| ==> Order(root, tree + more)[k] == Order(root, tree)[k];
  }

  lemma BreadthFirstGrows(adj: Adjacency, root: nat, tree: seq<Edge>, e: Edge, h: nat)
    requires BreadthFirst(adj, root, tree) && BreadthFirstFrom(adj, root, tree + [e], |tree|, h)
    ensures BreadthFirst(adj, root, tree + [e])
  {
    forall i: nat | i < |tree + [e]| ensures BreadthFirstAt(adj, root, tree + [e], i) {
      if i < |tree| {
        assert BreadthFirstAt(adj, root, tree, i);
        var g: nat :| BreadthFirstFrom(adj, root, tree, i, g);
        BreadthFirstPrefix(adj, root, tree, [e], i, g);
      }
    }
  }

  /** The state inside a round: head is the node whose edges are followed, done those that have been. */
  ghost predicate Tracked(adj: Adjacency, start: nat, b: Bfs, head: nat, done: seq<Edge>) {
    && b.visited == Discovered({start}, b.tree) && BreadthFirst(adj, start, b.tree)
    && head <= |b.tree| && b.queue == Order(start, b.tree)[head + 1..]
    && (forall k :: 0 <= k < head ==> Finished(adj, Order(start, b.tree)[k], b.visited))
    && forall e :: e in done ==> e.to in b.visited
  }

  /** Recording the first open edge of the head. */
  lemma RecordTracks(adj: Adjacency, start: nat, e: Edge, b: Bfs, head: nat, done: seq<Edge>)
    requires Tracked(adj, start, b, head, done) && done + [e] <= Out(adj, Order(start, b.tree)[head])
    requires e.from == Order(start, b.tree)[head]
    ensures BreadthFirstFrom(adj, start, b.tree + [e], |b.tree|, head)
  {
    var tree, out := b.tree + [e], Out(adj, e.from);
    assert tree[..|b.tree|] == b.tree && tree[|b.tree|] == e;
    assert forall k :: 0 <= k <= |b.tree| ==> Order(start, tree)[k] == Order(start, b.tree)[k];
    assert out[|done|] == (done + [e])[|done|] == e;
    forall m | 0 <= m < |done| ensures out[m].to in b.visited { assert out[m] == (done + [e])[m] == done[m]; }
  }

  lemma FinishedMore(adj: Adjacency, nodes: seq<nat>, n: nat, known: set<nat>, more: set<nat>)
    requires n <= |nodes| && known <= more && forall k :: 0 <= k < n ==> Finished(adj, nodes[k], known)
    ensures forall k :: 0 <= k < n ==> Finished(adj, nodes[k], more)
  {
  }

  lemma FollowOneTracks(adj: Adjacency, start: nat, e: Edge, b: Bfs, head: nat, done: seq<Edge>)
    requires Tracked(adj, start, b, head, done) && done + [e] <= Out(adj, Order(start, b.tree)[head])
    requires e.from == Order(start, b.tree)[head]
    ensures Tracked(adj, start, FollowOne(e, b), head, done + [e])
    ensures Order(start, b.tree) <= Order(start, FollowOne(e, b).tree)
  {
    if e.to !in b.visited {
      var tree := b.tree + [e];
      RecordTracks(adj, start, e, b, head, done);
      BreadthFirstGrows(adj, start, b.tree, e, head);
      DiscoveredByOne(start, b.tree, e);
      assert Order(start, tree) == Order(start, b.tree) + [e.to];
      FinishedMore(adj, Order(start, b.tree), head, b.visited, b.visited + {e.to});
      assert Order(start, tree)[head + 1..] == b.queue + [e.to];
    }
  }

  lemma DiscoveredByOne(root: nat, tree: seq<Edge>, e: Edge)
    ensures Discovered({root}, tree + [e]) == Discovered({root}, tree) + {e.to}
  {
    GrowsByOne(map[], {root}, tree, e);
  }

  lemma {:induction false} FollowEdgesTracks(adj: Adjacency, start: nat, edges: seq<Edge>, b: Bfs, head: nat,
                                             done: seq<Edge>)
    requires Filed(adj) && Tracked(adj, start, b, head, done)
    requires done + edges == Out(adj, Order(start, b.tree)[head])
    ensures Tracked(adj, start, FollowEdges(edges, b), head, done + edges)
    ensures Order(start, b.tree) <= Order(start, FollowEdges(edges, b).tree)
    decreases |edges|
  {
    if edges == [] {
      assert done + edges == done;
    } else {
      var e := edges[0];
      assert done + edges == (done + [e]) + edges[1..];
      assert e == (done + edges)[|done|] && e in Out(adj, Order(start, b.tree)[head]);
      FollowOneTracks(adj, start, e, b, head, done);
      assert Order(start, FollowOne(e, b).tree)[head] == Order(start, b.tree)[head];
      FollowEdgesTracks(adj, start, edges[1..], FollowOne(e, b), head, done + [e]);
    }
  }

  /** Between two rounds: the nodes before head are finished, and the others are queued. */
  ghost predicate TrackedAt(adj: Adjacency, start: nat, b: Bfs, head: nat) {
    && b.visited == Discovered({start}, b.tree) && BreadthFirst(adj, start, b.tree)
    && head <= |b.tree| + 1 && b.queue == Order(start, b.tree)[head..]
    && forall k :: 0 <= k < head ==> Finished(adj, Order(start, b.tree)[k], b.visited)
  }

  lemma BfsRoundTracks(adj: Adjacency, all: set<nat>, start: nat, b: Bfs, head: nat)
    requires Filed(adj) && Inside(adj, all) && b.queue != [] && TrackedAt(adj, start, b, head)
    ensures TrackedAt(adj, start, BfsRound(adj, all, b), head + 1)
  {
    var node, first := b.queue[0], b.(queue := b.queue[1..]);
    assert node == Order(start, b.tree)[head] && [] + Out(adj, node) == Out(adj, node);
    FollowEdgesTracks(adj, start, Out(adj, node), first, head, []);
    var r := FollowEdges(Out(adj, node), first);
    FinishedMore(adj, Order(start, b.tree), head, b.visited, r.visited);
    assert Order(start, r.tree)[head] == node;
  }

  lemma {:induction false} BfsLoopTracks(adj: Adjacency, all: set<nat>, start: nat, b: Bfs, head: nat)
    requires Filed(adj) && Inside(adj, all) && TrackedAt(adj, start, b, head)
    ensures BreadthFirst(adj, start, BfsLoop(adj, all, b).tree)
    decreases all - b.visited, |b.queue|
  {
    if b.queue != [] {
      BfsRoundTracks(adj, all, start, b, head);
      BfsLoopTracks(adj, all, start, BfsRound(adj, all, b), head + 1);
    }
  }

  /** Breadth-first search always takes the first open edge of the earliest reached node that still
      has one. */
  lemma BfsIsBreadthFirst(adj: Adjacency, all: set<nat>, start: nat)
    requires Filed(adj) && Inside(adj, all)
    ensures BreadthFirst(adj, start, BfsTree(adj, all, start))
  {
    BfsLoopTracks(adj, all, start, Bfs([start], {start}, []), 0);
  }

  lemma OrdersAgree(root: nat, t: seq<Edge>, t': seq<Edge>, i: nat)
    requires i < |t| && i < |t'| && t[..i] == t'[..i]
    ensures forall k :: 0 <= k <= i ==> Order(root, t)[k] == Order(root, t')[k]
  {
    forall k | 0 <= k <= i ensures Order(root, t)[k] == Order(root, t')[k] {
      if k > 0 { assert t[k - 1] == t[..i][k - 1] == t'[..i][k - 1] == t'[k - 1]; }
    }
  }

  /** The head of an open edge is not behind that of another. */
  lemma HeadNotLater(adj: Adjacency, order: seq<nat>, known: set<nat>, e: Edge, h: nat, e': Edge, h': nat)
    requires h < |order| && h' < |order| && order[h'] == e'.from
    requires forall k :: 0 <= k < h ==> Finished(adj, order[k], known)
    requires e' in Out(adj, e'.from) && e'.to !in known
    ensures h <= h'
  {
    assert !Finished(adj, order[h'], known);
  }

  lemma NextBreadthFirstAgree(adj: Adjacency, root: nat, t: seq<Edge>, t': seq<Edge>, i: nat)
    requires Grows(adj, {root}, t) && BreadthFirst(adj, root, t)
    requires Grows(adj, {root}, t') && BreadthFirst(adj, root, t')
    requires i < |t| && i < |t'| && t[..i] == t'[..i]
    ensures t[i] == t'[i]
  {
    EdgeAt(adj, {root}, t, i);
    EdgeAt(adj, {root}, t', i);
    assert BreadthFirstAt(adj, root, t, i) && BreadthFirstAt(adj, root, t', i);
    var h: nat :| BreadthFirstFrom(adj, root, t, i, h);
    var h': nat :| BreadthFirstFrom(adj, root, t', i, h');
    OrdersAgree(root, t, t', i);
    var now := Discovered({root}, t[..i]);
    HeadNotLater(adj, Order(root, t), now, t[i], h, t'[i], h');
    HeadNotLater(adj, Order(root, t'), now, t'[i], h', t[i], h);
    FirstOpenIsUnique(adj, now, t[i], t'[i]);
  }

  lemma {:induction false} BreadthFirstPrefixes(adj: Adjacency, root: nat, t: seq<Edge>, t': seq<Edge>, n: nat)
    requires Grows(adj, {root}, t) && BreadthFirst(adj, root, t)
    requires Grows(adj, {root}, t') && BreadthFirst(adj, root, t')
    requires n <= |t| && n <= |t'|
    ensures t[..n] == t'[..n]
    decreases n
  {
    if n > 0 {
      BreadthFirstPrefixes(adj, root, t, t', n - 1);
      NextBreadthFirstAgree(adj, root, t, t', n - 1);
      assert t[..n] == t[..n - 1] + [t[n - 1]] && t'[..n] == t'[..n - 1] + [t'[n - 1]];
    }
  }

  /** The order determines the tree: the breadth-first spanning tree is the only one. */
  lemma BreadthFirstIsUnique(adj: Adjacency, root: nat, t: seq<Edge>, t': seq<Edge>)
    requires SpanningTree(adj, root, t) && BreadthFirst(adj, root, t)
    requires SpanningTree(adj, root, t') && BreadthFirst(adj, root, t')
    ensures t == t'
  {
    var n := if |t| <= |t'| then |t| else |t'|;
    BreadthFirstPrefixes(adj, root, t, t', n);
    if |t| <= |t'| {
      assert t == t[..n] && t' == t'[..n] + t'[n..];
      NotShorter(adj, root, t, t');
    } else {
      assert t' == t'[..n] && t == t[..n] + t[n..];
      NotShorter(adj, root, t', t);
    }
  }

  // ----- Both traversals -----

  /** The two traversals reach the same nodes. */
  lemma TraversalsAgree(adj: Adjacency, all: set<nat>, start: nat)
    requires Filed(adj) && Inside(adj, all)
    ensures Discovered({start}, BfsTree(adj, all, start)) == DfsNode(adj, all, start, {}).visited
  {
    DfsSpans(adj, all, start);
    BfsSpans(adj, all, start);
    forall v ensures v in Discovered({start}, BfsTree(adj, all, start)) <==> v in DfsNode(adj, all, start, {}).visited {
      assert v in Discovered({start}, BfsTree(adj, all, start)) <==> Reachable(adj, start, v);
    }
  }

  // ----- Recorded paths and costs -----

  /** paths.push_back for an edge. */
  function Record(paths: seq<TraversalPath>, e: Edge): seq<TraversalPath> {
    paths + [TraversalPath([e.from, e.to], [e])]
  }

  lemma {:induction false} RecordedPaths(tree: seq<Edge>)
    ensures var paths := Fold(Record, [], tree);
      && |paths| == |tree|
      && forall i :: 0 <= i < |tree| ==> paths[i] == TraversalPath([tree[i].from, tree[i].to], [tree[i]])
    decreases |tree|
  {
    if tree != [] {
      var init, e := tree[..|tree| - 1], tree[|tree| - 1];
      assert tree == init + [e];
      FoldLast(Record, [], init, e);
      RecordedPaths(init);
    }
  }

  /** What a caller can rely on in the recorded paths: every node reachable from the start,
      other than the start, is the target of exactly one, no other node is, and each path
      leaves from the start or from the target of an earlier one. */
  lemma SpanningPaths(adj: Adjacency, start: nat, tree: seq<Edge>, v: nat)
    requires SpanningTree(adj, start, tree)
    ensures var paths := Fold(Record, [], tree);
      && |paths| == |tree|
      && (forall i :: 0 <= i < |paths| ==> |paths[i].nodes| == 2)
      && ((exists i :: 0 <= i < |paths| && paths[i].nodes[1] == v) <==> v != start && Reachable(adj, start, v))
      && (forall i, j :: 0 <= i < j < |paths| ==> paths[i].nodes[1] != paths[j].nodes[1])
      && (forall i :: 0 <= i < |paths| ==>
            paths[i].nodes[0] == start || exists j :: 0 <= j < i && paths[j].nodes[1] == paths[i].nodes[0])
  {
    var paths := Fold(Record, [], tree);
    RecordedPaths(tree);
    DiscoveredMeans({start}, tree, v);
    assert v in Discovered({start}, tree) <==> Reachable(adj, start, v);
    if i :| 0 <= i < |tree| && tree[i].to == v {
      TargetIsNew(adj, {start}, tree, i);
      assert paths[i].nodes[1] == v;
    }
    forall i, j | 0 <= i < j < |paths| ensures paths[i].nodes[1] != paths[j].nodes[1] {
      EachTargetOnce(adj, {start}, tree, i, j);
    }
    forall i | 0 <= i < |paths| && paths[i].nodes[0] != start
      ensures exists j :: 0 <= j < i && paths[j].nodes[1] == paths[i].nodes[0]
    {
      SourceIsEarlier(adj, start, tree, i);
      var j :| 0 <= j < i && tree[j].to == tree[i].from;
      assert paths[j].nodes[1] == paths[i].nodes[0];
    }
  }

  /** nodes_[v].cost: a node that is not there is made on the spot, with cost 0. */
  function CostOf(nodes: map<nat, Node>, v: nat): real {
    if v in nodes then nodes[v].cost else 0.0
  }

  /** total += cost(to) * weight for an edge. */
  function Charge(nodes: map<nat, Node>): (real, Edge) -> real {
    (total: real, e: Edge) => total + CostOf(nodes, e.to) * e.weight
  }

  /** A path adds the cost of the node it leads to times the weight of its edge. */
  ghost predicate Adds(nodes: map<nat, Node>, path: TraversalPath, before: real, after: real) {
    && |path.nodes| == 2 && path.nodes[1] in nodes && |path.edges| == 1
    && after == before + nodes[path.nodes[1]].cost * path.edges[0].weight
  }

  /** The running totals of the cost along recorded paths, from the start's cost. */
  ghost predicate RunningTotals(nodes: map<nat, Node>, start: nat, paths: seq<TraversalPath>, totals: seq<real>) {
    && |totals| == |paths| + 1 && start in nodes && totals[0] == nodes[start].cost
    && forall i :: 0 <= i < |paths| ==> Adds(nodes, paths[i], totals[i], totals[i + 1])
  }

  lemma TotalsNext(nodes: map<nat, Node>, start: nat, paths: seq<TraversalPath>, totals: seq<real>,
                   path: TraversalPath, last: real)
    requires RunningTotals(nodes, start, paths, totals) && Adds(nodes, path, totals[|paths|], last)
    ensures RunningTotals(nodes, start, paths + [path], totals + [last])
  {
    var paths', totals' := paths + [path], totals + [last];
    forall i | 0 <= i < |paths'| ensures Adds(nodes, paths'[i], totals'[i], totals'[i + 1]) {
      if i < |paths| { assert Adds(nodes, paths[i], totals[i], totals[i + 1]); }
    }
  }

  lemma {:induction false} ChargeRuns(nodes: map<nat, Node>, start: nat, tree: seq<Edge>) returns (totals: seq<real>)
    requires start in nodes && forall i :: 0 <= i < |tree| ==> tree[i].to in nodes
    ensures RunningTotals(nodes, start, Fold(Record, [], tree), totals)
    ensures |totals| == |tree| + 1 && totals[|tree|] == Fold(Charge(nodes), nodes[start].cost, tree)
    decreases |tree|
  {
    if tree == [] {
      totals := [nodes[start].cost];
    } else {
      var init, e := tree[..|tree| - 1], tree[|tree| - 1];
      var before := ChargeRuns(nodes, start, init);
      totals := ChargeOne(nodes, start, init, e, before);
      assert tree == init + [e];
    }
  }

  lemma ChargeOne(nodes: map<nat, Node>, start: nat, init: seq<Edge>, e: Edge, before: seq<real>)
    returns (totals: seq<real>)
    requires RunningTotals(nodes, start, Fold(Record, [], init), before) && e.to in nodes
    requires |before| == |init| + 1 && before[|init|] == Fold(Charge(nodes), nodes[start].cost, init)
    ensures RunningTotals(nodes, start, Fold(Record, [], init + [e]), totals)
    ensures |totals| == |init| + 2 && totals[|init| + 1] == Fold(Charge(nodes), nodes[start].cost, init + [e])
  {
    FoldLast(Record, [], init, e);
    FoldLast(Charge(nodes), nodes[start].cost, init, e);
    RecordedPaths(init);
    var last := before[|init|] + nodes[e.to].cost * e.weight;
    TotalsNext(nodes, start, Fold(Record, [], init), before, TraversalPath([e.from, e.to], [e]), last);
    totals := before + [last];
  }

  /** One round of the loop in the recursive helpers, for whatever they accumulate. */
  lemma DfsRound<M>(adj: Adjacency, all: set<nat>, edges: seq<Edge>, k: nat, visited: set<nat>,
                    step: (M, Edge) -> M, m: M)
    requires Inside(adj, all) && k < |edges| && forall e :: e in edges ==> e.to in all
    ensures var r := DfsEdges(adj, all, edges[k..], visited);
      if edges[k].to in visited then r == DfsEdges(adj, all, edges[k + 1..], visited)
      else
        var sub := DfsNode(adj, all, edges[k].to, visited);
        var rest := DfsEdges(adj, all, edges[k + 1..], sub.visited);
        && r.visited == rest.visited
        && Fold(step, m, r.tree) == Fold(step, Fold(step, step(m, edges[k]), sub.tree), rest.tree)
  {
    var e := edges[k];
    assert edges[k..][0] == e && edges[k..][1..] == edges[k + 1..];
    if e.to !in visited {
      var sub := DfsNode(adj, all, e.to, visited);
      var rest := DfsEdges(adj, all, edges[k + 1..], sub.visited);
      FoldSplit(step, m, [e] + sub.tree, rest.tree);
      FoldSplit(step, m, [e], sub.tree);
      FoldOne(step, m, e);
    }
  }

  // ----- The engine -----

  class GraphEngine {
    var nodes: map<nat, Node>
    var adjacency: Adjacency
    var totalTraversals: nat

    /** Edges are filed under their source and join nodes that exist. */
    ghost predicate Valid()
      reads this
    {
      && adjacency.Keys <= nodes.Keys
      && forall u, e :: e in Out(adjacency, u) ==> e.from == u && e.to in nodes
    }

    constructor ()
      ensures Valid() && nodes == map[] && adjacency == map[] && totalTraversals == 0
    {
      nodes, adjacency, totalTraversals := map[], map[], 0;
    }

    method AddNode(id: nat, kind: string, cost: real, profit: real)
      requires Valid()
      modifies this`nodes
      ensures Valid() && nodes == old(nodes)[id := Node(id, kind, cost, profit)]
    {
      nodes := nodes[id := Node(id, kind, cost, profit)];
    }

    method AddEdge(from: nat, to: nat, kind: string, weight: real) returns (ok: bool)
      requires Valid()
      modifies this`adjacency
      ensures Valid() && ok == (from in nodes && to in nodes)
      ensures adjacency ==
        if ok then old(adjacency)[from := old(Out(adjacency, from)) + [Edge(from, to, kind, weight)]]
        else old(adjacency)
    {
      if from !in nodes || to !in nodes { return false; }
      var edge, before := Edge(from, to, kind, weight), Out(adjacency, from);
      ghost var adj0 := adjacency;
      adjacency := adjacency[from := before + [edge]];
      forall u, e | e in Out(adjacency, u) ensures e.from == u && e.to in nodes {
        assert e in Out(adj0, u) || (u == from && e == edge);
      }
      ok := true;
    }

    /** bfs_traversal: the recorded paths are a spanning tree of what is reachable from the
        start, and each path back through it is a shortest one. */
    method BfsTraversal(start: nat) returns (paths: seq<TraversalPath>)
      requires Valid()
      modifies this`totalTraversals
      ensures Inside(adjacency, nodes.Keys)
      ensures paths == Fold(Record, [], BfsTree(adjacency, nodes.Keys, start))
      ensures SpanningTree(adjacency, start, BfsTree(adjacency, nodes.Keys, start))
      ensures ShortestHops(adjacency, start, BfsTree(adjacency, nodes.Keys, start))
      ensures BreadthFirst(adjacency, start, BfsTree(adjacency, nodes.Keys, start))
      ensures totalTraversals == old(totalTraversals) + 1
    {
      totalTraversals := totalTraversals + 1;
      paths := [];
      var queue, visited := [start], {start};
      ghost var all := nodes.Keys;
      ghost var tree: seq<Edge> := [];
      while queue != []
        invariant totalTraversals == old(totalTraversals) + 1
        invariant BfsLoop(adjacency, all, Bfs(queue, visited, tree)).tree == BfsTree(adjacency, all, start)
        invariant paths == Fold(Record, [], tree)
        decreases all - visited, |queue|
      {
        ghost var round := BfsRound(adjacency, all, Bfs(queue, visited, tree));
        queue, visited, paths, tree := FollowAll(queue[0], Out(adjacency, queue[0]), queue[1..], visited, paths, tree);
      }
      BfsSpans(adjacency, all, start);
      BfsIsBreadthFirst(adjacency, all, start);
    }

    /** The inner loop of bfs_traversal: the edges of the current node. */
    static method FollowAll(current: nat, edges: seq<Edge>, queue0: seq<nat>, visited0: set<nat>,
                            paths0: seq<TraversalPath>, ghost tree0: seq<Edge>)
      returns (queue: seq<nat>, visited: set<nat>, paths: seq<TraversalPath>, ghost tree: seq<Edge>)
      requires paths0 == Fold(Record, [], tree0) && forall e :: e in edges ==> e.from == current
      ensures Bfs(queue, visited, tree) == FollowEdges(edges, Bfs(queue0, visited0, tree0))
      ensures paths == Fold(Record, [], tree)
    {
      queue, visited, paths, tree := queue0, visited0, paths0, tree0;
      for k := 0 to |edges|
        invariant FollowEdges(edges[k..], Bfs(queue, visited, tree)) == FollowEdges(edges, Bfs(queue0, visited0, tree0))
        invariant paths == Fold(Record, [], tree)
      {
        var edge := edges[k];
        assert edges[k..][0] == edge && edges[k..][1..] == edges[k + 1..] && edge in edges;
        if edge.to !in visited {
          visited := visited + {edge.to};
          queue := queue + [edge.to];
          paths := paths + [TraversalPath([current, edge.to], [edge])];
          FoldSplit(Record, [], tree, [edge]);
          FoldOne(Record, Fold(Record, [], tree), edge);
          tree := tree + [edge];
        }
      }
    }

    /** dfs_traversal: the recorded paths are those of the depth-first spanning tree (which is
        the only one, see DepthFirstIsUnique). */
    method DfsTraversal(start: nat) returns (paths: seq<TraversalPath>)
      requires Valid()
      modifies this`totalTraversals
      ensures Inside(adjacency, nodes.Keys)
      ensures paths == Fold(Record, [], DfsNode(adjacency, nodes.Keys, start, {}).tree)
      ensures SpanningTree(adjacency, start, DfsNode(adjacency, nodes.Keys, start, {}).tree)
      ensures DepthFirst(adjacency, {start}, DfsNode(adjacency, nodes.Keys, start, {}).tree)
      ensures totalTraversals == old(totalTraversals) + 1
    {
      totalTraversals := totalTraversals + 1;
      var visited;
      visited, paths := DfsRecursive(start, {}, []);
      DfsSpans(adjacency, nodes.Keys, start);
      DfsIsDepthFirst(adjacency, nodes.Keys, start);
    }

    method DfsRecursive(node: nat, visited0: set<nat>, paths0: seq<TraversalPath>)
      returns (visited: set<nat>, paths: seq<TraversalPath>)
      requires Valid()
      ensures Inside(adjacency, nodes.Keys)
      ensures visited == DfsNode(adjacency, nodes.Keys, node, visited0).visited
      ensures paths == Fold(Record, paths0, DfsNode(adjacency, nodes.Keys, node, visited0).tree)
      decreases nodes.Keys - (visited0 + {node})
    {
      visited, paths := visited0 + {node}, paths0;
      ghost var all := nodes.Keys;
      var edges := Out(adjacency, node);
      ghost var whole := DfsNode(adjacency, all, node, visited0);
      for k := 0 to |edges|
        invariant visited0 + {node} <= visited
        invariant DfsEdges(adjacency, all, edges[k..], visited).visited == whole.visited
        invariant Fold(Record, paths, DfsEdges(adjacency, all, edges[k..], visited).tree)
               == Fold(Record, paths0, whole.tree)
      {
        var edge := edges[k];
        assert edge in edges;
        DfsRound(adjacency, all, edges, k, visited, Record, paths);
        if edge.to !in visited {
          paths := paths + [TraversalPath([node, edge.to], [edge])];
          visited, paths := DfsRecursive(edge.to, visited, paths);
        }
      }
    }

    /** calculate_cost_propagation: the start's cost, then cost * weight for each edge of the
        depth-first tree, in the order in which dfs_traversal records them.  Looking up a start
        that is not there files a node of cost 0 under it. */
    method CalculateCostPropagation(start: nat) returns (total: real)
      requires Valid()
      modifies this`nodes
      ensures Valid() && Inside(adjacency, nodes.Keys)
      ensures nodes == if start in old(nodes) then old(nodes) else old(nodes)[start := Node(0, "", 0.0, 0.0)]
      ensures total == Fold(Charge(nodes), CostOf(nodes, start), DfsNode(adjacency, nodes.Keys, start, {}).tree)
      ensures var paths := Fold(Record, [], DfsNode(adjacency, nodes.Keys, start, {}).tree);
        exists totals :: RunningTotals(nodes, start, paths, totals) && total == totals[|paths|]
      ensures start !in old(nodes) ==> total == 0.0
    {
      if start !in nodes {
        assert Out(adjacency, start) == [];
        nodes := nodes[start := Node(0, "", 0.0, 0.0)];
      }
      var visited;
      visited, total := PropagateCostRecursive(start, {}, nodes[start].cost);
      TotalsOf(start);
    }

    /** The fold over the depth-first tree, as running totals along the recorded paths. */
    lemma TotalsOf(start: nat)
      requires Valid() && start in nodes
      ensures Inside(adjacency, nodes.Keys)
      ensures var tree := DfsNode(adjacency, nodes.Keys, start, {}).tree;
        exists totals :: RunningTotals(nodes, start, Fold(Record, [], tree), totals)
          && Fold(Charge(nodes), CostOf(nodes, start), tree) == totals[|Fold(Record, [], tree)|]
    {
      var tree := DfsNode(adjacency, nodes.Keys, start, {}).tree;
      DfsSpans(adjacency, nodes.Keys, start);
      forall i | 0 <= i < |tree| ensures tree[i].to in nodes { EdgeAt(adjacency, {start}, tree, i); }
      RecordedPaths(tree);
      var totals := ChargeRuns(nodes, start, tree);
    }

    method PropagateCostRecursive(node: nat, visited0: set<nat>, total0: real) returns (visited: set<nat>, total: real)
      requires Valid()
      ensures Inside(adjacency, nodes.Keys)
      ensures visited == DfsNode(adjacency, nodes.Keys, node, visited0).visited
      ensures total == Fold(Charge(nodes), total0, DfsNode(adjacency, nodes.Keys, node, visited0).tree)
      decreases nodes.Keys - (visited0 + {node})
    {
      visited, total := visited0 + {node}, total0;
      ghost var all := nodes.Keys;
      var edges := Out(adjacency, node);
      ghost var whole := DfsNode(adjacency, all, node, visited0);
      for k := 0 to |edges|
        invariant visited0 + {node} <= visited
        invariant DfsEdges(adjacency, all, edges[k..], visited).visited == whole.visited
        invariant Fold(Charge(nodes), total, DfsEdges(adjacency, all, edges[k..], visited).tree)
               == Fold(Charge(nodes), total0, whole.tree)
      {
        var edge := edges[k];
        assert edge in edges;
        DfsRound(adjacency, all, edges, k, visited, Charge(nodes), total);
        if edge.to !in visited {
          total := Charge(nodes)(total, edge);
          visited, total := PropagateCostRecursive(edge.to, visited, total);
        }
      }
    }
  }
}
