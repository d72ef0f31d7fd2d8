/**
 The depth-first cycle search of the waits-for graph, on values.

 The search keeps the nodes of the potential cycle in a list. That list is the default argument
 of the search and so is shared by all its top-level calls: it may hold nodes left behind by an
 earlier search. Below, `left` is what was left behind and `own` is what this search put after it.
 */
module CycleSearch {
  import opened Options
  import opened Sequences
  import opened Digraph

  datatype Search<V> = Search(found: Option<seq<V>>, visited: set<V>, path: seq<V>)

  function IndexOf<V(==)>(s: seq<V>, x: V): (i: nat)
    requires x in s
    ensures i < |s| && s[i] == x && x !in s[..i]
  {
    if s[0] == x then 0 else 1 + IndexOf(s[1..], x)
  }

  function Dfs<V(==)>(g: Graph<V>, n: V, visited: set<V>, path: seq<V>): (r: Search<V>)
    requires Closed(g) && n in g && n !in visited
    ensures visited + {n} <= r.visited
    ensures r.found.None? ==> r.path == path
    decreases g.Keys - visited, 0
  {
    assert g.Keys - (visited + {n}) < g.Keys - visited by { assert n in g.Keys - visited; }
    var r := DfsNext(g, g[n], visited + {n}, path + [n]);
    if r.found.Some? then r else r.(path := r.path[..|r.path| - 1])
  }

  function DfsNext<V(==)>(g: Graph<V>, nexts: seq<V>, visited: set<V>, path: seq<V>): (r: Search<V>)
    requires Closed(g) && forall m :: m in nexts ==> m in g
    ensures visited <= r.visited
    ensures r.found.None? ==> r.path == path
    decreases g.Keys - visited, 1, |nexts|
  {
    if nexts == [] then Search(None, visited, path)
    else if nexts[0] in path then Search(Some(path[IndexOf(path, nexts[0])..]), visited, path)
    else if nexts[0] !in visited then
      var r := Dfs(g, nexts[0], visited, path);
      if r.found.Some? then r else DfsNext(g, nexts[1..], r.visited, r.path)
    else DfsNext(g, nexts[1..], visited, path)
  }

  /** The loop of `detect_cycle` over the nodes, in the given order. */
  function Detect<V(==)>(g: Graph<V>, keys: seq<V>, visited: set<V>, path: seq<V>): (r: Search<V>)
    requires Closed(g) && forall k :: k in keys ==> k in g
    ensures r.found.None? ==> r.path == path
    decreases |keys|
  {
    if keys == [] then Search(None, visited, path)
    else if keys[0] in visited then Detect(g, keys[1..], visited, path)
    else
      var r := Dfs(g, keys[0], visited, path);
      if r.found.Some? then r else Detect(g, keys[1..], r.visited, r.path)
  }

  // ----- What a search returns -----

  ghost predicate EdgeInto<V>(g: Graph<V>, left: seq<V>) {
    exists a, b :: a in g && b in left && Edge(g, a, b)
  }

  /**
   What a search with a result leaves behind and returns: its list is what was left behind and then a
   walk of its own; the result is the list from the first occurrence of the node that closed it.
   */
  ghost predicate IsReport<V>(g: Graph<V>, visited: set<V>, left: seq<V>, r: Search<V>) {
    && r.found.Some?
    && |left| < |r.path| && r.path[..|left|] == left
    && IsOwnWalk(g, visited, left, r.path[|left|..])
    && r.found.value != [] && r.found.value[0] in r.path
    && r.found.value == r.path[IndexOf(r.path, r.found.value[0])..]
    && Edge(g, r.path[|r.path| - 1], r.found.value[0])
  }

  /** Distinct nodes, none of them visited before, and only the first perhaps among what was left behind. */
  ghost predicate IsOwnWalk<V>(g: Graph<V>, visited: set<V>, left: seq<V>, own: seq<V>) {
    && own != [] && IsWalk(g, own) && NoDuplicates(own)
    && (forall x :: x in own ==> x !in visited)
    && (forall i :: 1 <= i < |own| ==> own[i] !in left)
  }

  lemma OwnWalkGrows<V>(g: Graph<V>, visited: set<V>, left: seq<V>, own: seq<V>, n: V)
    requires IsOwnWalk(g, visited, left, own) && Edge(g, own[|own| - 1], n)
    requires n !in own && n !in visited && n !in left
    ensures IsOwnWalk(g, visited, left, own + [n])
  {
    var own' := own + [n];
    forall k | 0 <= k < |own'| - 1
      ensures Edge(g, own'[k], own'[k + 1])
    {
      if k < |own| - 1 {
        assert Edge(g, own[k], own[k + 1]);
      }
    }
  }

  /** `before` is what was visited when the top-level search began. */
  lemma {:induction false} DfsReports<V>(
    g: Graph<V>, n: V, before: set<V>, visited: set<V>, left: seq<V>, own: seq<V>)
    requires Closed(g) && n in g && n !in visited && before <= visited
    requires (forall x :: x in own ==> x in visited) && IsOwnWalk(g, before, left, own + [n])
    ensures var r := Dfs(g, n, visited, left + own);
            r.found.Some? ==> IsReport(g, before, left, r) && own + [n] <= r.path[|left|..]
    decreases g.Keys - visited, 0
  {
    assert g.Keys - (visited + {n}) < g.Keys - visited by { assert n in g.Keys - visited; }
    assert (left + own) + [n] == left + (own + [n]);
    DfsNextReports(g, n, g[n], before, visited + {n}, left, own + [n]);
  }

  lemma {:induction false} DfsNextReports<V>(
    g: Graph<V>, n: V, nexts: seq<V>, before: set<V>, visited: set<V>, left: seq<V>, own: seq<V>)
    requires Closed(g) && (forall m :: m in nexts ==> m in g) && before <= visited
    requires (forall x :: x in own ==> x in visited) && IsOwnWalk(g, before, left, own) && own[|own| - 1] == n
    requires n in g && forall m :: m in nexts ==> m in g[n]
    ensures var r := DfsNext(g, nexts, visited, left + own);
            r.found.Some? ==> IsReport(g, before, left, r) && own <= r.path[|left|..]
    decreases g.Keys - visited, 1, |nexts|
  {
    if nexts != [] {
      var m, path := nexts[0], left + own;
      if m in path {
        assert path[..|left|] == left && path[|left|..] == own;
      } else if m !in visited {
        OwnWalkGrows(g, before, left, own, m);
        DfsReports(g, m, before, visited, left, own);
        var r := Dfs(g, m, visited, path);
        if r.found.None? {
          DfsNextReports(g, n, nexts[1..], before, r.visited, left, own);
        }
      } else {
        DfsNextReports(g, n, nexts[1..], before, visited, left, own);
      }
    }
  }

  lemma DfsReportsFrom<V>(g: Graph<V>, n: V, visited: set<V>, left: seq<V>)
    requires Closed(g) && n in g && n !in visited
    ensures var r := Dfs(g, n, visited, left);
            r.found.Some? ==> IsReport(g, visited, left, r) && r.path[|left|] == n
  {
    assert left + [] == left && [] + [n] == [n];
    DfsReports(g, n, visited, visited, left, []);
    var r := Dfs(g, n, visited, left);
    if r.found.Some? {
      assert r.path[|left|..][0] == n;
    }
  }

  lemma {:induction false} DetectReports<V>(g: Graph<V>, keys: seq<V>, visited: set<V>, left: seq<V>)
    requires Closed(g) && forall k :: k in keys ==> k in g
    ensures var r := Detect(g, keys, visited, left);
            r.found.Some? ==> IsReport(g, visited, left, r)
    decreases |keys|
  {
    if keys != [] {
      if keys[0] in visited {
        DetectReports(g, keys[1..], visited, left);
      } else {
        DfsReportsFrom(g, keys[0], visited, left);
        var r := Dfs(g, keys[0], visited, left);
        if r.found.None? {
          DetectReports(g, keys[1..], r.visited, left);
        }
      }
    }
  }

  // ----- When a result is a cycle -----

  ghost predicate IsSimpleCycle<V>(g: Graph<V>, c: seq<V>) {
    IsCycle(g, c) && NoDuplicates(c)
  }

  /** The list from `m` on is a walk of distinct nodes that goes on to `k`. */
  ghost predicate GoesOn<V>(g: Graph<V>, left: seq<V>, m: V, k: V)
    requires m in left
  {
    var s := left[IndexOf(left, m)..];
    IsWalk(g, s) && NoDuplicates(s) && k !in s && Edge(g, s[|s| - 1], k)
  }

  /**
   The result is a cycle of distinct nodes exactly when it does not begin in the list that was left
   behind, or that list from there on is a walk of distinct nodes that goes on to the node the
   search started from.
   */
  lemma ReportIsRealIff<V>(g: Graph<V>, visited: set<V>, left: seq<V>, r: Search<V>)
    requires IsReport(g, visited, left, r)
    ensures var c := r.found.value;
            IsSimpleCycle(g, c) <==> c[0] in left ==> GoesOn(g, left, c[0], r.path[|left|])
  {
    hide IndexOf, IsWalk, NoDuplicates, IsSimpleCycle;
    var own := r.path[|left|..];
    var m := r.found.value[0];
    assert r.path == left + own;
    assert own[0] == r.path[|left|] && own[|own| - 1] == r.path[|r.path| - 1];
    ListFrom(left, own, m);
    if m in left {
      TwoWalks(g, left[IndexOf(left, m)..], own, m);
    } else {
      SuffixWalk(g, own, IndexOf(own, m));
    }
  }

  /** The joined list from the first occurrence of `m` on. */
  lemma ListFrom<V>(left: seq<V>, own: seq<V>, m: V)
    requires m in left + own
    ensures m in left ==> (left + own)[IndexOf(left + own, m)..] == left[IndexOf(left, m)..] + own
    ensures m !in left ==> m in own && (left + own)[IndexOf(left + own, m)..] == own[IndexOf(own, m)..]
  {
    hide IndexOf;
    var path := left + own;
    if m in left {
      var j := IndexOf(left, m);
      assert path[..j] == left[..j];
      FirstOccurrence(path, m, j);
    } else {
      var j := IndexOf(own, m);
      assert path[..|left| + j] == left + own[..j];
      FirstOccurrence(path, m, |left| + j);
    }
  }

  lemma FirstOccurrence<V>(s: seq<V>, x: V, j: nat)
    requires j < |s| && s[j] == x && x !in s[..j]
    ensures IndexOf(s, x) == j
  {
    var i := IndexOf(s, x);
    assert forall a :: 0 <= a < j ==> s[..j][a] == s[a];
    assert forall a :: 0 <= a < i ==> s[..i][a] == s[a];
  }

  lemma SuffixWalk<V>(g: Graph<V>, own: seq<V>, i: nat)
    requires i < |own| && IsWalk(g, own) && NoDuplicates(own) && Edge(g, own[|own| - 1], own[i])
    ensures IsSimpleCycle(g, own[i..])
  {
    var c := own[i..];
    forall k | 0 <= k < |c| - 1
      ensures Edge(g, c[k], c[k + 1])
    {
      assert Edge(g, own[i + k], own[i + k + 1]);
    }
  }

  /** A list `s` and a walk `own` that leads back to its beginning. */
  lemma TwoWalks<V>(g: Graph<V>, s: seq<V>, own: seq<V>, m: V)
    requires s != [] && s[0] == m && own != [] && IsWalk(g, own) && NoDuplicates(own) && Edge(g, own[|own| - 1], m)
    requires forall i :: 1 <= i < |own| ==> own[i] !in s
    ensures IsSimpleCycle(g, s + own) <==> IsWalk(g, s) && NoDuplicates(s) && own[0] !in s && Edge(g, s[|s| - 1], own[0])
  {
    var c := s + own;
    if IsSimpleCycle(g, c) {
      assert forall k :: 0 <= k < |s| ==> c[k] == s[k];
      assert c[|s|] == own[0];
      forall k | 0 <= k < |s| - 1
        ensures Edge(g, s[k], s[k + 1])
      {
        assert Edge(g, c[k], c[k + 1]);
      }
      assert Edge(g, c[|s| - 1], c[|s| - 1 + 1]);
    }
    if IsWalk(g, s) && NoDuplicates(s) && own[0] !in s && Edge(g, s[|s| - 1], own[0]) {
      forall k | 0 <= k < |c| - 1
        ensures Edge(g, c[k], c[k + 1])
      {
        if k < |s| - 1 {
          assert Edge(g, s[k], s[k + 1]);
        } else if k >= |s| {
          assert Edge(g, own[k - |s|], own[k - |s| + 1]);
        }
      }
    }
  }

  // ----- Repeating a search -----

  /** A search without a result is not disturbed by nodes on the list that it does not visit. */
  lemma {:induction false} DfsSame<V>(g: Graph<V>, n: V, visited: set<V>, p: seq<V>, q: seq<V>)
    requires Closed(g) && n in g && n !in visited && Dfs(g, n, visited, p).found.None?
    requires forall x :: x in q && x in Dfs(g, n, visited, p).visited ==> x in p
    ensures Dfs(g, n, visited, q).found.None? && Dfs(g, n, visited, q).visited == Dfs(g, n, visited, p).visited
    decreases g.Keys - visited, 0
  {
    assert g.Keys - (visited + {n}) < g.Keys - visited by { assert n in g.Keys - visited; }
    DfsNextSame(g, g[n], visited + {n}, p + [n], q + [n]);
  }

  lemma {:induction false} DfsNextSame<V>(g: Graph<V>, nexts: seq<V>, visited: set<V>, p: seq<V>, q: seq<V>)
    requires Closed(g) && (forall m :: m in nexts ==> m in g) && DfsNext(g, nexts, visited, p).found.None?
    requires forall x :: x in q && x in DfsNext(g, nexts, visited, p).visited ==> x in p
    ensures DfsNext(g, nexts, visited, q).found.None?
    ensures DfsNext(g, nexts, visited, q).visited == DfsNext(g, nexts, visited, p).visited
    decreases g.Keys - visited, 1, |nexts|
  {
    if nexts != [] {
      var m := nexts[0];
      if m !in visited {
        var r := Dfs(g, m, visited, p);
        assert r.visited <= DfsNext(g, nexts[1..], r.visited, r.path).visited;
        DfsSame(g, m, visited, p, q);
        DfsNextSame(g, nexts[1..], r.visited, p, q);
      } else {
        DfsNextSame(g, nexts[1..], visited, p, q);
      }
    }
  }

  /** The second node of the list, or the only one. */
  function Second<V>(s: seq<V>): V
    requires s != []
  {
    if |s| > 1 then s[1] else s[0]
  }

  /** All nodes of `q` are on the list `l`, its second one among them. */
  ghost predicate IsDirt<V>(l: seq<V>, q: seq<V>) {
    l != [] && (forall x :: x in q ==> x in l) && Second(l) in q
  }

  lemma {:induction false} NextRepeats<V>(g: Graph<V>, k: V, nexts: seq<V>, visited: set<V>, q: seq<V>)
    requires Closed(g) && k in g && forall m :: m in nexts ==> m in g && m in g[k]
    requires k in visited && DfsNext(g, nexts, visited, [k]).found.Some?
    requires k in q && IsDirt(DfsNext(g, nexts, visited, [k]).path, q)
    ensures var l, r := DfsNext(g, nexts, visited, [k]).path, DfsNext(g, nexts, visited, q);
            Second(l) in q && r.found == Some(q[IndexOf(q, Second(l))..]) && r.path == q
    decreases |nexts|
  {
    var l := DfsNext(g, nexts, visited, [k]).path;
    LaterNodes(g, k, nexts, visited);
    var m := nexts[0];
    if m != k && m !in visited {
      var r := Dfs(g, m, visited, [k]);
      if r.found.None? {
        LaterNodes(g, k, nexts[1..], r.visited);
        DfsSame(g, m, visited, [k], q);
        NextRepeats(g, k, nexts[1..], r.visited, q);
      } else {
        FirstStep(g, k, m, visited);
      }
    } else if m != k {
      NextRepeats(g, k, nexts[1..], visited, q);
    }
  }

  /** The list starts with the node the search starts from; the others were not visited before. */
  lemma LaterNodes<V>(g: Graph<V>, k: V, nexts: seq<V>, visited: set<V>)
    requires Closed(g) && k in g && k in visited && forall m :: m in nexts ==> m in g && m in g[k]
    ensures var r := DfsNext(g, nexts, visited, [k]);
            r.found.Some? ==> r.path != [] && r.path[0] == k && forall i :: 1 <= i < |r.path| ==> r.path[i] !in visited
  {
    assert [] + [k] == [k];
    assert IsOwnWalk(g, visited - {k}, [], [k]);
    DfsNextReports(g, k, nexts, visited - {k}, visited, [], [k]);
    var r := DfsNext(g, nexts, visited, [k]);
    if r.found.Some? {
      assert r.path[0..] == r.path && [k] <= r.path;
      forall i | 1 <= i < |r.path|
        ensures r.path[i] !in visited
      {
        assert r.path[0] == k && r.path[i] != r.path[0];
        assert r.path[i] in r.path && r.path[i] !in visited - {k};
      }
    }
  }

  lemma FirstStep<V>(g: Graph<V>, k: V, m: V, visited: set<V>)
    requires Closed(g) && k in g && m in g && m in g[k] && k in visited && m !in visited
    ensures var r := Dfs(g, m, visited, [k]); r.found.Some? ==> [k, m] <= r.path
  {
    assert [] + [k] == [k] && [k] + [m] == [k, m];
    assert IsOwnWalk(g, visited - {k}, [], [k, m]);
    DfsReports(g, m, visited - {k}, visited, [], [k]);
    var r := Dfs(g, m, visited, [k]);
    if r.found.Some? {
      assert r.path[0..] == r.path;
    }
  }

  /**
   The search again, on the same graph in the same order, with nodes of the first search left behind:
   it stops at the first step of the walk the first search made.
   */
  lemma {:induction false} DetectRepeats<V>(g: Graph<V>, keys: seq<V>, visited: set<V>, q: seq<V>)
    requires Closed(g) && (forall k :: k in keys ==> k in g)
    requires Detect(g, keys, visited, []).found.Some? && IsDirt(Detect(g, keys, visited, []).path, q)
    ensures var l, r := Detect(g, keys, visited, []).path, Detect(g, keys, visited, q);
            && Second(l) in q + [l[0]]
            && r.found == Some((q + [l[0]])[IndexOf(q + [l[0]], Second(l))..]) && r.path == q + [l[0]]
    decreases |keys|
  {
    var l, k := Detect(g, keys, visited, []).path, keys[0];
    if k in visited {
      DetectRepeats(g, keys[1..], visited, q);
    } else {
      var r := Dfs(g, k, visited, []);
      assert [] + [k] == [k];
      if r.found.None? {
        DetectReports(g, keys[1..], r.visited, []);
        assert l[0..] == l;
        DfsSame(g, k, visited, [], q);
        DetectRepeats(g, keys[1..], r.visited, q);
      } else {
        DfsReportsFrom(g, k, visited, []);
        NextRepeats(g, k, g[k], visited + {k}, q + [k]);
      }
    }
  }

  function Copies<V>(x: V, n: nat): (s: seq<V>)
    ensures |s| == n && forall i :: 0 <= i < n ==> s[i] == x
  {
    if n == 0 then [] else Copies(x, n - 1) + [x]
  }

  /**
   Every later search of a graph with a cycle, `n` further ones after the first. The list of the
   first search stays and its first node is put on it once more each time. The result is that list
   without its first node at the beginning; so it is a cycle of distinct nodes exactly in the first
   repetition, and only if the walk had several nodes and an edge leads from its last to its first.
   */
  lemma RepeatIsRealIff<V>(g: Graph<V>, keys: seq<V>, n: nat)
    requires Closed(g) && (forall k :: k in keys ==> k in g) && Detect(g, keys, {}, []).found.Some?
    ensures var l := Detect(g, keys, {}, []).path;
            && l != []
            && var r := Detect(g, keys, {}, l + Copies(l[0], n));
            && r.path == l + Copies(l[0], n + 1)
            && r.found == Some((if |l| > 1 then l[1..] else l) + Copies(l[0], n + 1))
            && (IsSimpleCycle(g, r.found.value) <==> n == 0 && |l| > 1 && Edge(g, l[|l| - 1], l[0]))
  {
    hide Detect, IsReport, IsSimpleCycle, IsWalk, NoDuplicates, IndexOf, Copies;
    DetectReports(g, keys, {}, []);
    var l := Detect(g, keys, {}, []).path;
    FirstSearchWalks(g, Detect(g, keys, {}, []));
    RepeatedList(l, n);
    DetectRepeats(g, keys, {}, l + Copies(l[0], n));
    TurnedWalk(g, l, n + 1);
  }

  lemma RepeatedList<V>(l: seq<V>, n: nat)
    requires l != [] && NoDuplicates(l)
    ensures var q := l + Copies(l[0], n + 1);
            && IsDirt(l, l + Copies(l[0], n)) && l + Copies(l[0], n) + [l[0]] == q
            && Second(l) in q && q[IndexOf(q, Second(l))..] == (if |l| > 1 then l[1..] else l) + Copies(l[0], n + 1)
  {
    hide IndexOf;
    var q, q' := l + Copies(l[0], n), l + Copies(l[0], n + 1);
    assert q' == q + [l[0]];
    var i := if |l| > 1 then 1 else 0;
    assert q'[i] == Second(l) && q[i] == Second(l);
    FirstOccurrence(q', Second(l), i);
    assert q'[1..] == l[1..] + Copies(l[0], n + 1) && q'[0..] == q';
  }

  lemma FirstSearchWalks<V>(g: Graph<V>, r: Search<V>)
    requires IsReport(g, {}, [], r)
    ensures r.path != [] && IsWalk(g, r.path) && NoDuplicates(r.path)
  {
    assert r.path[0..] == r.path;
  }

  /** A walk of distinct nodes with its first node moved to the end, `n` times over. */
  lemma TurnedWalk<V>(g: Graph<V>, l: seq<V>, n: nat)
    requires l != [] && IsWalk(g, l) && NoDuplicates(l) && n >= 1
    ensures var c := (if |l| > 1 then l[1..] else l) + Copies(l[0], n);
            IsSimpleCycle(g, c) <==> n == 1 && |l| > 1 && Edge(g, l[|l| - 1], l[0])
  {
    var c := (if |l| > 1 then l[1..] else l) + Copies(l[0], n);
    if n > 1 {
      assert c[|c| - 1] == c[|c| - 2];
    } else if |l| == 1 {
      assert c[0] == c[1];
    } else {
      assert c == l[1..] + [l[0]];
      assert Edge(g, l[0], l[0 + 1]);
      forall k | 0 <= k < |l| - 2
        ensures Edge(g, c[k], c[k + 1])
      {
        assert Edge(g, l[k + 1], l[k + 1 + 1]);
      }
      assert c[|l| - 2] == l[|l| - 1] && c[|l| - 1] == l[0];
      if IsSimpleCycle(g, c) {
        assert Edge(g, c[|l| - 2], c[|l| - 2 + 1]);
      }
    }
  }

  // ----- What it means that nothing is returned -----

  /** The finished nodes are in order and none of them leads into what was left behind. */
  ghost predicate IsFinished<V>(g: Graph<V>, left: seq<V>, order: seq<V>) {
    && PostOrder(g, order) && NoDuplicates(order)
    && forall a, b :: a in order && b in left ==> !Edge(g, a, b)
  }

  /** The visited nodes are the finished ones and the ones on the path. */
  ghost predicate IsSplit<V>(visited: set<V>, order: seq<V>, own: seq<V>) {
    && (forall x :: x in visited ==> x in order || x in own)
    && (forall x :: x in order ==> x in visited && x !in own)
    && (forall x :: x in own ==> x in visited)
  }

  lemma FinishNode<V>(g: Graph<V>, n: V, visited: set<V>, left: seq<V>, own: seq<V>, o: seq<V>)
    requires n in g && n !in own
    requires IsFinished(g, left, o) && IsSplit(visited, o, own + [n])
    requires forall m :: m in g[n] ==> m in o && m !in left
    ensures IsFinished(g, left, o + [n]) && IsSplit(visited, o + [n], own)
  {
    assert n in own + [n];
    PostOrderPush(g, o, n);
    hide PostOrder;
    forall x | x in own
      ensures x in own + [n]
    {
    }
  }

  lemma {:induction false} DfsFinishes<V>(
    g: Graph<V>, n: V, visited: set<V>, left: seq<V>, own: seq<V>, order: seq<V>) returns (order': seq<V>)
    requires Closed(g) && n in g && n !in visited
    requires IsFinished(g, left, order) && IsSplit(visited, order, own)
    requires Dfs(g, n, visited, left + own).found.None?
    ensures order <= order' && n in order' && IsFinished(g, left, order')
    ensures IsSplit(Dfs(g, n, visited, left + own).visited, order', own)
    decreases g.Keys - visited, 0
  {
    assert g.Keys - (visited + {n}) < g.Keys - visited by { assert n in g.Keys - visited; }
    assert (left + own) + [n] == left + (own + [n]);
    var o := DfsNextFinishes(g, g[n], visited + {n}, left, own + [n], order);
    FinishNode(g, n, Dfs(g, n, visited, left + own).visited, left, own, o);
    order' := o + [n];
  }

  lemma {:induction false} DfsNextFinishes<V>(
    g: Graph<V>, nexts: seq<V>, visited: set<V>, left: seq<V>, own: seq<V>, order: seq<V>) returns (order': seq<V>)
    requires Closed(g) && (forall m :: m in nexts ==> m in g)
    requires IsFinished(g, left, order) && IsSplit(visited, order, own)
    requires DfsNext(g, nexts, visited, left + own).found.None?
    ensures order <= order' && IsFinished(g, left, order')
    ensures IsSplit(DfsNext(g, nexts, visited, left + own).visited, order', own)
    ensures forall m :: m in nexts ==> m in order' && m !in left
    decreases g.Keys - visited, 1, |nexts|
  {
    if nexts == [] {
      order' := order;
    } else {
      var m := nexts[0];
      assert m !in left && m !in own by { assert m !in left + own; }
      var o, v := order, visited;
      if m !in visited {
        o := DfsFinishes(g, m, visited, left, own, order);
        v := Dfs(g, m, visited, left + own).visited;
      }
      order' := DfsNextFinishes(g, nexts[1..], v, left, own, o);
      assert m in order';
    }
  }

  lemma {:induction false} DetectFinishes<V>(g: Graph<V>, keys: seq<V>, visited: set<V>, left: seq<V>, order: seq<V>)
    returns (order': seq<V>)
    requires Closed(g) && (forall k :: k in keys ==> k in g)
    requires IsFinished(g, left, order) && IsSplit(visited, order, [])
    requires Detect(g, keys, visited, left).found.None?
    ensures order <= order' && IsFinished(g, left, order') && forall k :: k in keys ==> k in order'
    decreases |keys|
  {
    if keys == [] {
      order' := order;
    } else {
      assert left + [] == left;
      var o, v := order, visited;
      if keys[0] !in visited {
        o := DfsFinishes(g, keys[0], visited, left, [], order);
        v := Dfs(g, keys[0], visited, left).visited;
      }
      order' := DetectFinishes(g, keys[1..], v, left, o);
      assert keys[0] in order';
    }
  }

  // ----- Main results -----

  ghost predicate Acyclic<V(!new)>(g: Graph<V>) {
    forall c :: !IsCycle(g, c)
  }

  lemma CycleStartsInGraph<V>(g: Graph<V>, c: seq<V>)
    requires IsCycle(g, c)
    ensures c[0] in g
  {
    if |c| > 1 {
      assert Edge(g, c[0], c[0 + 1]);
    }
  }

  /** `keys` lists the nodes of the graph. */
  ghost predicate Lists<V>(g: Graph<V>, keys: seq<V>) {
    (forall k :: k in keys ==> k in g) && (forall k :: k in g ==> k in keys)
  }

  /**
   Whatever list was left behind and in whatever order the nodes are tried: the answer is "none"
   exactly when the graph has no cycle and no edge into the list that was left behind. So "none
   exactly when acyclic" holds on acyclic graphs exactly when no edge leads into that list.
   */
  lemma DetectsNoneIff<V(!new)>(g: Graph<V>, keys: seq<V>, left: seq<V>)
    requires Closed(g) && Lists(g, keys)
    ensures Detect(g, keys, {}, left).found.None? <==> Acyclic(g) && !EdgeInto(g, left)
  {
    var r := Detect(g, keys, {}, left);
    if r.found.None? {
      var order := DetectFinishes(g, keys, {}, left, []);
      forall c
        ensures !IsCycle(g, c)
      {
        if IsCycle(g, c) {
          CycleStartsInGraph(g, c);
          PostOrderHasNoCycle(g, order, c);
        }
      }
      forall a, b | Edge(g, a, b)
        ensures b !in left
      {
        assert a in keys;
      }
    } else {
      DetectReports(g, keys, {}, left);
      ReportMeans(g, {}, left, r);
    }
  }

  /** A result means a cycle or an edge into what was left behind. */
  lemma ReportMeans<V>(g: Graph<V>, visited: set<V>, left: seq<V>, r: Search<V>)
    requires IsReport(g, visited, left, r)
    ensures IsSimpleCycle(g, r.found.value) || EdgeInto(g, left)
  {
    ReportIsRealIff(g, visited, left, r);
  }

  /** What is returned is a cycle of distinct nodes when no edge leads into the list that was left behind. */
  lemma DetectedCycleIsReal<V>(g: Graph<V>, keys: seq<V>, left: seq<V>)
    requires Closed(g) && (forall k :: k in keys ==> k in g) && !EdgeInto(g, left)
    requires Detect(g, keys, {}, left).found.Some?
    ensures var c := Detect(g, keys, {}, left).found.value; IsCycle(g, c) && NoDuplicates(c)
  {
    DetectReports(g, keys, {}, left);
    ReportMeans(g, {}, left, Detect(g, keys, {}, left));
  }

  /**
   Whatever was left behind, what is returned is a cycle of distinct nodes exactly when it does not
   begin in that list, or that list from there on goes on to the node the search started from.
   */
  lemma DetectedRealIff<V>(g: Graph<V>, keys: seq<V>, left: seq<V>)
    requires Closed(g) && (forall k :: k in keys ==> k in g) && Detect(g, keys, {}, left).found.Some?
    ensures var r := Detect(g, keys, {}, left);
            && |left| < |r.path| && r.found.value != []
            && (IsSimpleCycle(g, r.found.value) <==>
                r.found.value[0] in left ==> GoesOn(g, left, r.found.value[0], r.path[|left|]))
  {
    DetectReports(g, keys, {}, left);
    ReportIsRealIff(g, {}, left, Detect(g, keys, {}, left));
  }

  /** With nothing left behind, which is how a session starts, both hold for every graph. */
  lemma DetectsExactlyCycles<V(!new)>(g: Graph<V>, keys: seq<V>)
    requires Closed(g) && Lists(g, keys)
    ensures var r := Detect(g, keys, {}, []);
            && (r.found.None? <==> Acyclic(g))
            && (r.found.Some? ==> IsCycle(g, r.found.value) && NoDuplicates(r.found.value))
            && (r.found.None? ==> r.path == [])
  {
    DetectsNoneIff(g, keys, []);
    if Detect(g, keys, {}, []).found.Some? {
      DetectedCycleIsReal(g, keys, []);
    }
  }
}
