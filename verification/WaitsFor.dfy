/**
 The waits-for graph of buildscripts/gdb/mongo_lock.py: recording who waits for which lock and who
 holds it, pruning, and the search for a deadlock. The records read from gdb are the input.
 */
module WaitsFor {
  import opened Options
  import opened Sequences
  import opened Digraph
  import opened CycleSearch

  datatype Key = ThreadKey(id: int) | LockKey(addr: int)

  datatype Vertex = Thread(id: int, lwpid: Option<int>) | Lock(addr: int, resource: string) {
    function Key(): Key {
      match this
      case Thread(id, _) => ThreadKey(id)
      case Lock(addr, _) => LockKey(addr)
    }
  }

  datatype Entry = Entry(node: Vertex, next: seq<Key>)

  type Nodes = map<Key, Entry>

  function Links(nodes: Nodes): Digraph.Graph<Key> {
    map k | k in nodes :: nodes[k].next
  }

  // ----- Building the graph -----

  function WithNode(nodes: Nodes, v: Vertex): Nodes {
    if v.Key() in nodes then nodes else nodes[v.Key() := Entry(v, [])]
  }

  function WithEdge(nodes: Nodes, f: Vertex, t: Vertex): Nodes {
    var m := WithNode(WithNode(nodes, f), t);
    var e := m[f.Key()];
    if t.Key() in e.next then m else m[f.Key() := e.(next := e.next + [t.Key()])]
  }

  /** Keys fit their nodes, targets are nodes, no edge is doubled, and edges join threads and locks. */
  ghost predicate WellFormed(nodes: Nodes) {
    && (forall k :: k in nodes ==> nodes[k].node.Key() == k && NoDuplicates(nodes[k].next))
    && (forall k, m :: k in nodes && m in nodes[k].next ==> m in nodes && (k.ThreadKey? <==> m.LockKey?))
  }

  lemma WithEdgeKeeps(nodes: Nodes, f: Vertex, t: Vertex)
    requires WellFormed(nodes) && (f.Thread? <==> t.Lock?)
    ensures WellFormed(WithEdge(nodes, f, t))
  {
  }

  lemma WithEdgeAdds(nodes: Nodes, f: Vertex, t: Vertex, a: Key, b: Key)
    ensures Edge(Links(WithEdge(nodes, f, t)), a, b) <==>
            Edge(Links(nodes), a, b) || (a == f.Key() && b == t.Key())
  {
  }

  /** One record: a thread waits for a lock that a thread holds. */
  datatype Wait = Wait(
    waiter: int, waiterLwpid: Option<int>, lock: int, resource: string, holder: int, holderLwpid: Option<int>)

  function Record(nodes: Nodes, w: Wait): Nodes {
    var lock := Lock(w.lock, w.resource);
    WithEdge(WithEdge(nodes, Thread(w.waiter, w.waiterLwpid), lock), lock, Thread(w.holder, w.holderLwpid))
  }

  function RecordAll(ws: seq<Wait>): Nodes {
    if ws == [] then map[] else Record(RecordAll(ws[..|ws| - 1]), ws[|ws| - 1])
  }

  predicate IsRecorded(w: Wait, a: Key, b: Key) {
    (a == ThreadKey(w.waiter) && b == LockKey(w.lock)) || (a == LockKey(w.lock) && b == ThreadKey(w.holder))
  }

  lemma {:induction false} RecordAllWellFormed(ws: seq<Wait>)
    ensures WellFormed(RecordAll(ws))
  {
    if ws != [] {
      hide WellFormed, WithEdge;
      var w := ws[|ws| - 1];
      RecordAllWellFormed(ws[..|ws| - 1]);
      var nodes, lock := RecordAll(ws[..|ws| - 1]), Lock(w.lock, w.resource);
      WithEdgeKeeps(nodes, Thread(w.waiter, w.waiterLwpid), lock);
      WithEdgeKeeps(WithEdge(nodes, Thread(w.waiter, w.waiterLwpid), lock), lock, Thread(w.holder, w.holderLwpid));
    }
  }

  /** The edges of the graph are exactly those some record asked for. */
  lemma {:induction false} RecordAllEdges(ws: seq<Wait>, a: Key, b: Key)
    ensures Edge(Links(RecordAll(ws)), a, b) <==> exists w :: w in ws && IsRecorded(w, a, b)
  {
    if ws != [] {
      hide Links, WithEdge, Edge;
      var w, rest := ws[|ws| - 1], ws[..|ws| - 1];
      assert ws == rest + [w];
      RecordAllEdges(rest, a, b);
      assert (exists v :: v in ws && IsRecorded(v, a, b)) <==>
             IsRecorded(w, a, b) || exists v :: v in rest && IsRecorded(v, a, b) by {
        if IsRecorded(w, a, b) {
          assert w in ws && IsRecorded(w, a, b);
        }
        if v :| v in rest && IsRecorded(v, a, b) {
          assert v in ws && IsRecorded(v, a, b);
        }
      }
      var nodes, lock := RecordAll(rest), Lock(w.lock, w.resource);
      WithEdgeAdds(nodes, Thread(w.waiter, w.waiterLwpid), lock, a, b);
      WithEdgeAdds(WithEdge(nodes, Thread(w.waiter, w.waiterLwpid), lock), lock, Thread(w.holder, w.holderLwpid), a, b);
    }
  }

  // ----- Pruning -----

  predicate HasIncoming(nodes: Nodes, k: Key) {
    exists a :: a in nodes && k in nodes[a].next
  }

  function Pruned(nodes: Nodes): Nodes {
    map k | k in nodes && (nodes[k].next != [] || HasIncoming(nodes, k)) :: nodes[k]
  }

  /** Pruning keeps every edge. */
  lemma PrunedEdge(nodes: Nodes, a: Key, b: Key)
    requires WellFormed(nodes)
    ensures Edge(Links(Pruned(nodes)), a, b) <==> Edge(Links(nodes), a, b)
  {
  }

  lemma PrunedWellFormed(nodes: Nodes)
    requires WellFormed(nodes)
    ensures WellFormed(Pruned(nodes))
  {
    forall k, m | k in Pruned(nodes) && m in nodes[k].next
      ensures m in Pruned(nodes)
    {
      assert HasIncoming(nodes, m);
    }
  }

  /** Pruning keeps every cycle and adds none. */
  lemma PrunedCycle(nodes: Nodes, c: seq<Key>)
    requires WellFormed(nodes)
    ensures IsCycle(Links(Pruned(nodes)), c) <==> IsCycle(Links(nodes), c)
  {
    hide Links, Edge, Pruned, WellFormed;
    var g, h := Links(nodes), Links(Pruned(nodes));
    if |c| > 0 {
      forall i | 0 <= i < |c| - 1
        ensures Edge(h, c[i], c[i + 1]) <==> Edge(g, c[i], c[i + 1])
      {
        PrunedEdge(nodes, c[i], c[i + 1]);
      }
      PrunedEdge(nodes, c[|c| - 1], c[0]);
    }
  }

  /** A node is pruned exactly when it has no edge in either direction. */
  lemma PrunedRemoves(nodes: Nodes, k: Key)
    requires k in nodes
    ensures k !in Pruned(nodes) <==> forall b :: !Edge(Links(nodes), k, b) && !Edge(Links(nodes), b, k)
  {
    var g := Links(nodes);
    if nodes[k].next != [] {
      assert Edge(g, k, nodes[k].next[0]);
    }
    if HasIncoming(nodes, k) {
      var a :| a in nodes && k in nodes[a].next;
      assert Edge(g, a, k);
    }
  }

  lemma WellFormedIsClosed(nodes: Nodes)
    requires WellFormed(nodes)
    ensures Closed(Links(nodes))
  {
  }

  // ----- The objects -----

  /** The default argument of the search, one list for the whole session. */
  class SharedPath {
    var keys: seq<Key>

    constructor ()
      ensures keys == []
    {
      keys := [];
    }
  }

  class Graph {
    var nodes: Nodes

    constructor ()
      ensures nodes == map[]
    {
      nodes := map[];
    }

    method AddNode(v: Vertex)
      modifies this
      ensures nodes == WithNode(old(nodes), v)
      // The node is there, everything else is as before, and no edge is new.
      ensures nodes.Keys == old(nodes).Keys + {v.Key()}
      ensures forall k :: k in old(nodes) ==> nodes[k] == old(nodes)[k]
      ensures forall a, b :: Edge(Links(nodes), a, b) <==> Edge(Links(old(nodes)), a, b)
      ensures WellFormed(old(nodes)) ==> WellFormed(nodes)
    {
      if v.Key() !in nodes {
        nodes := nodes[v.Key() := Entry(v, [])];
      }
    }

    method AddEdge(f: Vertex, t: Vertex)
      modifies this
      ensures nodes == WithEdge(old(nodes), f, t)
    {
      if f.Key() !in nodes {
        AddNode(f);
      }
      if t.Key() !in nodes {
        AddNode(t);
      }
      var next := nodes[f.Key()].next;
      var i := 0;
      while i < |next|
        invariant 0 <= i <= |next| && t.Key() !in next[..i]
      {
        if next[i] == t.Key() {
          return;
        }
        i := i + 1;
      }
      assert next[..i] == next;
      nodes := nodes[f.Key() := nodes[f.Key()].(next := next + [t.Key()])];
    }

    /** Some node with an edge to `k`; the dictionary is read in an arbitrary order. */
    method FindFromNode(k: Key) returns (r: Option<Entry>)
      ensures r.Some? <==> HasIncoming(nodes, k)
      ensures r.Some? ==> k in r.value.next && r.value in nodes.Values
    {
      var todo := nodes.Keys;
      while todo != {}
        invariant todo <= nodes.Keys
        invariant forall a :: a in nodes && a !in todo ==> k !in nodes[a].next
        decreases todo
      {
        var a :| a in todo;
        if k in nodes[a].next {
          return Some(nodes[a]);
        }
        todo := todo - {a};
      }
      return None;
    }

    method RemoveNodesWithoutEdge()
      modifies this
      ensures nodes == Pruned(old(nodes))
    {
      var kept: Nodes := map[];
      var todo := nodes.Keys;
      while todo != {}
        invariant nodes == old(nodes) && todo <= nodes.Keys
        invariant kept == map k | k in nodes && k !in todo && (nodes[k].next != [] || HasIncoming(nodes, k)) :: nodes[k]
        decreases todo
      {
        var k :| k in todo;
        var keep := nodes[k].next != [];
        if !keep {
          var from := FindFromNode(k);
          keep := from.Some?;
        }
        if keep {
          kept := kept[k := nodes[k]];
        }
        todo := todo - {k};
      }
      nodes := kept;
    }

    method DepthFirstSearch(key: Key, seen: set<Key>, path: SharedPath) returns (r: Option<seq<Key>>, visited: set<Key>)
      requires Closed(Links(nodes)) && key in nodes && key !in seen
      modifies path
      ensures Search(r, visited, path.keys) == Dfs(Links(nodes), key, seen, old(path.keys))
      decreases nodes.Keys - seen, 0
    {
      ghost var g := Links(nodes);
      visited := seen + {key};
      path.keys := path.keys + [key];
      assert nodes.Keys - visited < nodes.Keys - seen by { assert key in nodes.Keys - seen; }
      ClosedAt(nodes, key);
      r, visited := SearchNext(nodes[key].next, visited, path);
      if r.None? {
        path.keys := path.keys[..|path.keys| - 1];
      }
    }

    /** The loop over the successors of a node. */
    method SearchNext(nexts: seq<Key>, seen: set<Key>, path: SharedPath) returns (r: Option<seq<Key>>, visited: set<Key>)
      requires Closed(Links(nodes)) && forall m :: m in nexts ==> m in nodes
      modifies path
      ensures Search(r, visited, path.keys) == DfsNext(Links(nodes), nexts, seen, old(path.keys))
      decreases nodes.Keys - seen, 1
    {
      hide Dfs, Closed, Links;
      ghost var g := Links(nodes);
      LinksKeys(nodes);
      visited := seen;
      var i := 0;
      assert nexts[0..] == nexts;
      while i < |nexts|
        invariant 0 <= i <= |nexts| && seen <= visited
        invariant path.keys == old(path.keys)
        invariant DfsNext(g, nexts, seen, old(path.keys)) == DfsNext(g, nexts[i..], visited, path.keys)
        decreases |nexts| - i
      {
        assert nexts[i..][0] == nexts[i] && nexts[i..][1..] == nexts[i + 1..];
        if nexts[i] in path.keys {
          return Some(path.keys[IndexOf(path.keys, nexts[i])..]), visited;
        }
        if nexts[i] !in visited {
          r, visited := DepthFirstSearch(nexts[i], visited, path);
          if r.Some? {
            return;
          }
        }
        i := i + 1;
      }
      r := None;
    }

    /** The nodes are tried in the order `keys`, whatever order the dictionary has. */
    method DetectCycle(keys: seq<Key>, path: SharedPath) returns (r: Option<seq<Key>>)
      requires Closed(Links(nodes)) && Lists(Links(nodes), keys)
      modifies path
      ensures var s := Detect(Links(nodes), keys, {}, old(path.keys)); r == s.found && path.keys == s.path
    {
      hide Dfs, Closed, Links;
      ghost var g := Links(nodes);
      LinksKeys(nodes);
      var visited := {};
      var i := 0;
      assert keys[0..] == keys;
      while i < |keys|
        invariant 0 <= i <= |keys|
        invariant path.keys == old(path.keys)
        invariant Detect(g, keys, {}, old(path.keys)) == Detect(g, keys[i..], visited, path.keys)
        decreases |keys| - i
      {
        assert keys[i..][0] == keys[i] && keys[i..][1..] == keys[i + 1..];
        if keys[i] !in visited {
          r, visited := DepthFirstSearch(keys[i], visited, path);
          if r.Some? {
            return;
          }
        }
        i := i + 1;
      }
      r := None;
    }
  }

  lemma ClosedAt(nodes: Nodes, k: Key)
    requires Closed(Links(nodes)) && k in nodes
    ensures forall m :: m in nodes[k].next ==> m in nodes
  {
    var g := Links(nodes);
    forall m | m in nodes[k].next
      ensures m in nodes
    {
      assert k in g && m in g[k];
      assert m in g;
    }
  }

  lemma LinksKeys(nodes: Nodes)
    ensures Links(nodes).Keys == nodes.Keys
    ensures forall k :: k in nodes ==> Links(nodes)[k] == nodes[k].next
  {
  }

  // ----- Deadlocks -----

  /** Thread `a` waits for a lock that thread `b` holds. */
  ghost predicate WaitsForThread(ws: seq<Wait>, a: int, b: int) {
    exists v, w :: v in ws && w in ws && v.waiter == a && v.lock == w.lock && w.holder == b
  }

  /** Each thread waits for the next one. */
  ghost predicate IsWaitChain(ws: seq<Wait>, ts: seq<int>) {
    |ts| > 0 && forall i :: 0 <= i < |ts| - 1 ==> WaitsForThread(ws, ts[i], ts[i + 1])
  }

  /** Some threads wait for each other in a circle. */
  ghost predicate Deadlocked(ws: seq<Wait>) {
    exists ts :: IsCircle(ws, ts)
  }

  ghost predicate IsCircle(ws: seq<Wait>, ts: seq<int>) {
    IsWaitChain(ws, ts) && |ts| > 1 && ts[0] == ts[|ts| - 1]
  }

  lemma {:induction false} ChainIsWalk(ws: seq<Wait>, ts: seq<int>) returns (p: seq<Key>)
    requires IsWaitChain(ws, ts)
    ensures IsWalkBetween(Links(RecordAll(ws)), p, ThreadKey(ts[0]), ThreadKey(ts[|ts| - 1]))
    ensures |p| >= |ts|
    decreases |ts|
  {
    hide Links, RecordAll, Edge;
    var g := Links(RecordAll(ws));
    if |ts| == 1 {
      p := [ThreadKey(ts[0])];
    } else {
      assert WaitsForThread(ws, ts[0], ts[0 + 1]);
      var v, w :| v in ws && w in ws && v.waiter == ts[0] && v.lock == w.lock && w.holder == ts[1];
      assert IsRecorded(v, ThreadKey(ts[0]), LockKey(v.lock));
      assert IsRecorded(w, LockKey(v.lock), ThreadKey(ts[1]));
      RecordAllEdges(ws, ThreadKey(ts[0]), LockKey(v.lock));
      RecordAllEdges(ws, LockKey(v.lock), ThreadKey(ts[1]));
      ChainTail(ws, ts, 1);
      var q := ChainIsWalk(ws, ts[1..]);
      WalkCons(g, LockKey(v.lock), q);
      WalkCons(g, ThreadKey(ts[0]), [LockKey(v.lock)] + q);
      p := [ThreadKey(ts[0])] + ([LockKey(v.lock)] + q);
    }
  }

  lemma ChainTail(ws: seq<Wait>, ts: seq<int>, k: nat)
    requires IsWaitChain(ws, ts) && k < |ts|
    ensures IsWaitChain(ws, ts[k..])
  {
    hide WaitsForThread;
    forall i | 0 <= i < |ts[k..]| - 1
      ensures WaitsForThread(ws, ts[k..][i], ts[k..][i + 1])
    {
      assert WaitsForThread(ws, ts[k + i], ts[k + i + 1]);
    }
  }

  lemma WalkCons(g: Digraph.Graph<Key>, a: Key, p: seq<Key>)
    requires IsWalk(g, p) && Edge(g, a, p[0])
    ensures IsWalk(g, [a] + p)
  {
    hide Edge;
    var q := [a] + p;
    forall i | 0 <= i < |q| - 1
      ensures Edge(g, q[i], q[i + 1])
    {
      if i > 0 {
        assert Edge(g, p[i - 1], p[i - 1 + 1]);
      }
    }
  }

  lemma WalkTail(g: Digraph.Graph<Key>, p: seq<Key>, k: nat)
    requires IsWalk(g, p) && k < |p|
    ensures IsWalk(g, p[k..])
  {
    hide Edge;
    forall i | 0 <= i < |p[k..]| - 1
      ensures Edge(g, p[k..][i], p[k..][i + 1])
    {
      assert Edge(g, p[k + i], p[k + i + 1]);
    }
  }

  lemma {:induction false} WalkIsChain(ws: seq<Wait>, p: seq<Key>) returns (ts: seq<int>)
    requires IsWalk(Links(RecordAll(ws)), p) && p[0].ThreadKey? && p[|p| - 1].ThreadKey?
    ensures IsWaitChain(ws, ts) && ThreadKey(ts[0]) == p[0] && ThreadKey(ts[|ts| - 1]) == p[|p| - 1]
    ensures |p| > 1 ==> |ts| > 1
    decreases |p|
  {
    hide Links, RecordAll, Edge;
    var g := Links(RecordAll(ws));
    if |p| == 1 {
      ts := [p[0].id];
    } else {
      assert Edge(g, p[0], p[0 + 1]);
      RecordAllEdges(ws, p[0], p[1]);
      var v :| v in ws && IsRecorded(v, p[0], p[1]);
      assert Edge(g, p[1], p[1 + 1]);
      RecordAllEdges(ws, p[1], p[2]);
      var w :| w in ws && IsRecorded(w, p[1], p[2]);
      WalkTail(g, p, 2);
      var rest := WalkIsChain(ws, p[2..]);
      assert WaitsForThread(ws, p[0].id, rest[0]);
      ts := [p[0].id] + rest;
      forall i | 0 <= i < |ts| - 1
        ensures WaitsForThread(ws, ts[i], ts[i + 1])
      {
        if i > 0 {
          assert WaitsForThread(ws, rest[i - 1], rest[i - 1 + 1]);
        }
      }
    }
  }

  /** A cycle of the graph, started at one of its threads and closed. */
  lemma ClosedWalkAtThread(ws: seq<Wait>, c: seq<Key>) returns (p: seq<Key>)
    requires IsCycle(Links(RecordAll(ws)), c)
    ensures IsWalk(Links(RecordAll(ws)), p) && |p| > 1 && p[0] == p[|p| - 1] && p[0].ThreadKey?
  {
    hide Links, RecordAll, Edge;
    var g := Links(RecordAll(ws));
    p := c + [c[0]];
    assert forall i :: 0 <= i < |p| - 1 ==> Edge(g, p[i], p[i + 1]) by {
      forall i | 0 <= i < |p| - 1
        ensures Edge(g, p[i], p[i + 1])
      {
        if i < |c| - 1 {
          assert Edge(g, c[i], c[i + 1]);
        }
      }
    }
    if p[0].LockKey? {
      assert Edge(g, p[0], p[0 + 1]);
      RecordAllEdges(ws, p[0], p[1]);
      var q := p[1..] + [p[1]];
      forall i | 0 <= i < |q| - 1
        ensures Edge(g, q[i], q[i + 1])
      {
        if i < |p| - 2 {
          assert Edge(g, p[i + 1], p[i + 1 + 1]);
        }
      }
      p := q;
    }
  }

  /** The recorded graph has a cycle exactly when the threads are deadlocked. */
  lemma CyclicIffDeadlocked(ws: seq<Wait>)
    ensures !Acyclic(Links(RecordAll(ws))) <==> Deadlocked(ws)
  {
    hide Links, RecordAll, Edge, WaitsForThread;
    var g := Links(RecordAll(ws));
    if c :| IsCycle(g, c) {
      var p := ClosedWalkAtThread(ws, c);
      var ts := WalkIsChain(ws, p);
      assert IsCircle(ws, ts);
    }
    if ts :| IsCircle(ws, ts) {
      var p := ChainIsWalk(ws, ts);
      var c := p[..|p| - 1];
      assert Edge(g, p[|p| - 2], p[|p| - 2 + 1]);
      forall i | 0 <= i < |c| - 1
        ensures Edge(g, c[i], c[i + 1])
      {
        assert Edge(g, p[i], p[i + 1]);
      }
      assert IsCycle(g, c);
    }
  }

  ghost predicate SomeRecord(ws: seq<Wait>, a: Key, b: Key) {
    exists w :: w in ws && IsRecorded(w, a, b)
  }

  /** The node after `c[i]`, the first one after the last. */
  function After(c: seq<Key>, i: nat): Key
    requires i < |c|
  {
    if i + 1 < |c| then c[i + 1] else c[0]
  }

  /** A cycle alternates waiting threads and held locks, each step of it recorded. */
  lemma CycleAlternates(ws: seq<Wait>, c: seq<Key>)
    requires IsCycle(Links(RecordAll(ws)), c)
    ensures |c| % 2 == 0
    ensures forall i :: 0 <= i < |c| ==> (c[i].ThreadKey? <==> (i % 2 == 0) == c[0].ThreadKey?)
    ensures forall i :: 0 <= i < |c| ==> SomeRecord(ws, c[i], After(c, i))
  {
    hide Links, RecordAll, Edge;
    var g := Links(RecordAll(ws));
    forall i | 0 <= i < |c|
      ensures SomeRecord(ws, c[i], After(c, i)) && (c[i].ThreadKey? <==> After(c, i).LockKey?)
    {
      if i + 1 < |c| {
        assert Edge(g, c[i], c[i + 1]);
      }
      RecordAllEdges(ws, c[i], After(c, i));
    }
    AlternatesUpTo(c, |c| - 1);
    assert c[|c| - 1].ThreadKey? <==> After(c, |c| - 1).LockKey?;
  }

  lemma {:induction false} AlternatesUpTo(c: seq<Key>, n: nat)
    requires n < |c|
    requires forall i :: 0 <= i < |c| ==> (c[i].ThreadKey? <==> After(c, i).LockKey?)
    ensures forall i :: 0 <= i <= n ==> (c[i].ThreadKey? <==> (i % 2 == 0) == c[0].ThreadKey?)
  {
    if n > 0 {
      AlternatesUpTo(c, n - 1);
      assert c[n - 1].ThreadKey? <==> After(c, n - 1).LockKey?;
    }
  }

  // ----- The command -----

  method ListKeys(s: set<Key>) returns (keys: seq<Key>)
    ensures forall k :: k in keys <==> k in s
  {
    keys := [];
    var todo := s;
    while todo != {}
      invariant todo <= s && forall k :: k in keys <==> k in s && k !in todo
      decreases todo
    {
      var k :| k in todo;
      keys := keys + [k];
      todo := todo - {k};
    }
  }

  /** What the command reports, given the list left behind by earlier ones, and the list it leaves. */
  ghost predicate IsAnswer(g: Digraph.Graph<Key>, left: seq<Key>, r: Option<seq<Key>>, path: seq<Key>) {
    if r.None? then path == left
    else
      && r.value != [] && |left| < |path|
      && (IsSimpleCycle(g, r.value) <==> r.value[0] in left ==> GoesOn(g, left, r.value[0], path[|left|]))
  }

  /**
   The command `mongodb-waitsfor-graph`, whatever earlier commands left behind. It reports nothing
   exactly when the recorded threads are not deadlocked and no recorded edge leads into the list
   left behind; otherwise it is known when the report is a real cycle. With nothing left behind it
   reports a real cycle exactly when the recorded threads are deadlocked.
   */
  method WaitsForCommand(ws: seq<Wait>, path: SharedPath) returns (r: Option<seq<Key>>)
    modifies path
    ensures r.None? <==> !Deadlocked(ws) && !EdgeInto(Links(RecordAll(ws)), old(path.keys))
    ensures IsAnswer(Links(RecordAll(ws)), old(path.keys), r, path.keys)
    ensures old(path.keys) == [] ==> (r.Some? <==> Deadlocked(ws))
    ensures old(path.keys) == [] && r.Some? ==> IsSimpleCycle(Links(RecordAll(ws)), r.value)
  {
    hide Detect, IsCycle, WellFormed, Closed, GoesOn, IsSimpleCycle;
    var graph := new Graph();
    var i := 0;
    assert ws[..0] == [];
    while i < |ws|
      invariant 0 <= i <= |ws| && graph.nodes == RecordAll(ws[..i])
      invariant path.keys == old(path.keys)
    {
      var w := ws[i];
      graph.AddEdge(Thread(w.waiter, w.waiterLwpid), Lock(w.lock, w.resource));
      graph.AddEdge(Lock(w.lock, w.resource), Thread(w.holder, w.holderLwpid));
      i := i + 1;
      assert ws[..i][..|ws[..i]| - 1] == ws[..i - 1];
    }
    assert ws[..i] == ws;
    graph.RemoveNodesWithoutEdge();
    var keys := ListKeys(graph.nodes.Keys);
    LinksKeys(graph.nodes);
    CommandIsRight(ws, RecordAll(ws));
    SearchAnswers(ws, keys, path.keys);
    if graph.nodes == map[] {
      NothingToSearch(graph.nodes, keys, path.keys);
      return None;
    }
    r := graph.DetectCycle(keys, path);
  }

  lemma NothingToSearch(nodes: Nodes, keys: seq<Key>, left: seq<Key>)
    requires nodes == map[] && Closed(Links(nodes)) && Lists(Links(nodes), keys)
    ensures Detect(Links(nodes), keys, {}, left) == Search(None, {}, left)
  {
    assert Links(nodes) == map[];
  }

  /** What the search of the pruned graph says about the graph recorded. */
  lemma SearchAnswers(ws: seq<Wait>, keys: seq<Key>, left: seq<Key>)
    requires Closed(Links(Pruned(RecordAll(ws)))) && Lists(Links(Pruned(RecordAll(ws))), keys)
    requires !Acyclic(Links(Pruned(RecordAll(ws)))) <==> Deadlocked(ws)
    ensures var g, r := Links(RecordAll(ws)), Detect(Links(Pruned(RecordAll(ws))), keys, {}, left);
            && (r.found.None? <==> !Deadlocked(ws) && !EdgeInto(g, left))
            && IsAnswer(g, left, r.found, r.path)
            && (left == [] && r.found.Some? ==> IsSimpleCycle(g, r.found.value))
  {
    hide Detect, IsCycle, Closed, Pruned, RecordAll, Links, GoesOn, IsSimpleCycle, Lists, Acyclic, WellFormed, Deadlocked;
    var g, h := Links(RecordAll(ws)), Links(Pruned(RecordAll(ws)));
    RecordAllWellFormed(ws);
    forall a, b
      ensures Edge(h, a, b) <==> Edge(g, a, b)
    {
      PrunedEdge(RecordAll(ws), a, b);
    }
    DetectsNoneIff(h, keys, left);
    SameEdgeInto(g, h, left);
    AllInGraph(h, keys);
    var r := Detect(h, keys, {}, left);
    if r.found.Some? {
      DetectedRealIff(h, keys, left);
      SameCycle(g, h, r.found.value);
      if r.found.value[0] in left {
        SameGoesOn(g, h, left, r.found.value[0], r.path[|left|]);
      }
    }
  }

  lemma AllInGraph(g: Digraph.Graph<Key>, keys: seq<Key>)
    requires Lists(g, keys)
    ensures forall k :: k in keys ==> k in g
  {
  }

  lemma SameEdgeInto(g: Digraph.Graph<Key>, h: Digraph.Graph<Key>, left: seq<Key>)
    requires forall a, b :: Edge(h, a, b) <==> Edge(g, a, b)
    ensures EdgeInto(h, left) <==> EdgeInto(g, left)
  {
  }

  lemma SameCycle(g: Digraph.Graph<Key>, h: Digraph.Graph<Key>, c: seq<Key>)
    requires forall a, b :: Edge(h, a, b) <==> Edge(g, a, b)
    ensures IsSimpleCycle(h, c) <==> IsSimpleCycle(g, c)
  {
    hide Edge;
  }

  lemma SameGoesOn(g: Digraph.Graph<Key>, h: Digraph.Graph<Key>, left: seq<Key>, m: Key, k: Key)
    requires m in left && forall a, b :: Edge(h, a, b) <==> Edge(g, a, b)
    ensures GoesOn(h, left, m, k) <==> GoesOn(g, left, m, k)
  {
    hide Edge;
  }

  lemma CommandIsRight(ws: seq<Wait>, nodes: Nodes)
    requires nodes == RecordAll(ws)
    ensures Closed(Links(Pruned(nodes)))
    ensures !Acyclic(Links(Pruned(nodes))) <==> Deadlocked(ws)
  {
    hide IsCycle, Pruned, Links, RecordAll, WellFormed, Closed;
    RecordAllWellFormed(ws);
    PrunedWellFormed(nodes);
    WellFormedIsClosed(Pruned(nodes));
    CyclicIffDeadlocked(ws);
    forall c
      ensures IsCycle(Links(Pruned(nodes)), c) <==> IsCycle(Links(nodes), c)
    {
      PrunedCycle(nodes, c);
    }
  }

  /**
   How the list left behind misleads. Thread 1 waits for lock 7, which thread 2 holds while waiting for
   it itself. The first search reports lock 7 and thread 2, and leaves its path behind. The same
   search again reports the three keys in an order that is no cycle: thread 2 does not wait for
   thread 1.
   */
  lemma LeftBehindMisleads(x: Key, a: Key, b: Key, g: Digraph.Graph<Key>)
    requires x == ThreadKey(1) && a == LockKey(7) && b == ThreadKey(2)
    requires g == map[x := [a], a := [b], b := [a]]
    ensures Closed(g)
    ensures Detect(g, [x, a, b], {}, []) == Search(Some([a, b]), {x, a, b}, [x, a, b])
    ensures Detect(g, [x, a, b], {}, [x, a, b]).found == Some([a, b, x])
    ensures IsCycle(g, [a, b]) && !IsCycle(g, [a, b, x])
  {
    assert g[x] == [a] && g[a] == [b] && g[b] == [a];
    FirstSearch(x, a, b, g);
    SecondSearch(x, a, b, g);
    assert IsCycle(g, [a, b]);
    assert !Edge(g, [a, b, x][1], [a, b, x][1 + 1]);
  }

  lemma FirstSearch(x: Key, a: Key, b: Key, g: Digraph.Graph<Key>)
    requires x != a && a != b && x != b && Closed(g) && x in g && a in g && b in g
    requires g[x] == [a] && g[a] == [b] && g[b] == [a]
    ensures Detect(g, [x, a, b], {}, []) == Search(Some([a, b]), {x, a, b}, [x, a, b])
  {
    var p := [x, a, b];
    assert {} + {x} == {x} && {x} + {a} == {x, a} && {x, a} + {b} == {x, a, b};
    assert [] + [x] == [x] && [x] + [a] == [x, a] && [x, a] + [b] == p;
    assert p[1..] == [a, b] && IndexOf(p, a) == 1;
    assert DfsNext(g, [a], {x, a, b}, p) == Search(Some([a, b]), {x, a, b}, p);
    assert Dfs(g, b, {x, a}, [x, a]) == Search(Some([a, b]), {x, a, b}, p);
    assert DfsNext(g, [b], {x, a}, [x, a]) == Search(Some([a, b]), {x, a, b}, p);
    assert Dfs(g, a, {x}, [x]) == Search(Some([a, b]), {x, a, b}, p);
    assert DfsNext(g, [a], {x}, [x]) == Search(Some([a, b]), {x, a, b}, p);
    assert Dfs(g, x, {}, []) == Search(Some([a, b]), {x, a, b}, p);
  }

  lemma SecondSearch(x: Key, a: Key, b: Key, g: Digraph.Graph<Key>)
    requires x != a && a != b && x != b && Closed(g) && x in g && a in g && b in g
    requires g[x] == [a]
    ensures Detect(g, [x, a, b], {}, [x, a, b]).found == Some([a, b, x])
  {
    var p := [x, a, b, x];
    assert {} + {x} == {x} && [x, a, b] + [x] == p;
    assert p[1..] == [a, b, x] && IndexOf(p, a) == 1;
    assert DfsNext(g, [a], {x}, p).found == Some([a, b, x]);
    assert Dfs(g, x, {}, [x, a, b]).found == Some([a, b, x]);
  }
}
