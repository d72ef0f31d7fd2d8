/**
 The depth-first walk inside `__get_libdeps`, on an arbitrary graph of values.

 `path` is the set of nodes being explored, `order` the nodes finished so far. The walk ends
 with an extended order or with the trace of a dependency cycle.
 */
module DependencySearch {
  import opened Sequences
  import opened Digraph

  datatype Outcome<V> = Ordered(order: seq<V>) | Cycle(trace: seq<V>)

  /** A trace is complete once it ends where it begins. */
  predicate IsOpenTrace<V(==)>(c: seq<V>) {
    |c| <= 1 || c[0] != c[|c| - 1]
  }

  function Extend<V(==)>(n: V, c: seq<V>): seq<V> {
    if IsOpenTrace(c) then [n] + c else c
  }

  function Visit<V(==)>(g: Graph<V>, n: V, path: set<V>, order: seq<V>): Outcome<V>
    requires Closed(g) && n in g
    decreases |g.Keys - path|, 0
  {
    if n in path then Cycle([n])
    else if n in order then Ordered(order)
    else
      assert g.Keys - (path + {n}) == (g.Keys - path) - {n};
      match VisitAll(g, g[n], path + {n}, order)
      case Ordered(o) => Ordered(o + [n])
      case Cycle(c) => Cycle(Extend(n, c))
  }

  function VisitAll<V(==)>(g: Graph<V>, kids: seq<V>, path: set<V>, order: seq<V>): Outcome<V>
    requires Closed(g) && forall k :: k in kids ==> k in g
    decreases |g.Keys - path|, 1 + |kids|
  {
    if kids == [] then Ordered(order)
    else
      match Visit(g, kids[0], path, order)
      case Cycle(c) => Cycle(c)
      case Ordered(o) => VisitAll(g, kids[1..], path, o)
  }

  lemma VisitUnfold<V>(g: Graph<V>, n: V, path: set<V>, order: seq<V>)
    requires Closed(g) && n in g
    ensures n in path ==> Visit(g, n, path, order) == Cycle([n])
    ensures n !in path && n in order ==> Visit(g, n, path, order) == Ordered(order)
  {
  }

  lemma VisitExplore<V>(g: Graph<V>, n: V, path: set<V>, order: seq<V>)
    requires Closed(g) && n in g && n !in path && n !in order
    ensures var r := VisitAll(g, g[n], path + {n}, order);
            Visit(g, n, path, order) ==
            if r.Ordered? then Ordered(r.order + [n]) else Cycle(Extend(n, r.trace))
  {
  }

  lemma VisitAllUnfold<V>(g: Graph<V>, kids: seq<V>, path: set<V>, order: seq<V>)
    requires Closed(g) && kids != [] && forall k :: k in kids ==> k in g
    ensures var r := Visit(g, kids[0], path, order);
            VisitAll(g, kids, path, order) == if r.Ordered? then VisitAll(g, kids[1..], path, r.order) else r
  {
  }

  lemma VisitAllNone<V>(g: Graph<V>, path: set<V>, order: seq<V>)
    requires Closed(g)
    ensures VisitAll(g, [], path, order) == Ordered(order)
  {
  }

  // ----- A walk that ends well -----

  /** The nodes finished so far are in order and apart from the nodes being explored. */
  ghost predicate Consistent<V>(g: Graph<V>, path: set<V>, order: seq<V>) {
    PostOrder(g, order) && NoDuplicates(order) && forall x :: x in order ==> x !in path
  }

  lemma {:induction false} VisitOrders<V>(g: Graph<V>, n: V, path: set<V>, order: seq<V>)
    requires Closed(g) && n in g && Consistent(g, path, order)
    ensures match Visit(g, n, path, order)
            case Ordered(o) => order <= o && n in o && Consistent(g, path, o)
            case Cycle(c) => true
    decreases |g.Keys - path|, 0
  {
    if n !in path && n !in order {
      assert g.Keys - (path + {n}) == (g.Keys - path) - {n};
      VisitAllOrders(g, g[n], path + {n}, order);
      match VisitAll(g, g[n], path + {n}, order)
      case Ordered(o) => PostOrderPush(g, o, n);
      case Cycle(c) =>
    }
  }

  lemma {:induction false} VisitAllOrders<V>(g: Graph<V>, kids: seq<V>, path: set<V>, order: seq<V>)
    requires Closed(g) && (forall k :: k in kids ==> k in g) && Consistent(g, path, order)
    ensures match VisitAll(g, kids, path, order)
            case Ordered(o) => order <= o && (forall k :: k in kids ==> k in o) && Consistent(g, path, o)
            case Cycle(c) => true
    decreases |g.Keys - path|, 1 + |kids|
  {
    if kids != [] {
      VisitOrders(g, kids[0], path, order);
      match Visit(g, kids[0], path, order)
      case Ordered(o) =>
        VisitAllOrders(g, kids[1..], path, o);
        assert forall k :: k in kids ==> k == kids[0] || k in kids[1..];
      case Cycle(c) =>
    }
  }

  /** A walk that starts in the set `from`. */
  ghost predicate WalkFrom<V>(g: Graph<V>, from: seq<V>, p: seq<V>, b: V) {
    IsWalk(g, p) && p[0] in from && p[|p| - 1] == b
  }

  lemma WalkPrepend<V>(g: Graph<V>, n: V, p: seq<V>, b: V)
    requires n in g && WalkFrom(g, g[n], p, b)
    ensures WalkFrom(g, [n], [n] + p, b)
  {
  }

  /** What the walk adds is reachable from where it starts. */
  lemma {:induction false} VisitReaches<V>(g: Graph<V>, n: V, path: set<V>, order: seq<V>, x: V)
    returns (p: seq<V>)
    requires Closed(g) && n in g && x !in order
    requires Visit(g, n, path, order).Ordered? && x in Visit(g, n, path, order).order
    ensures WalkFrom(g, [n], p, x)
    decreases |g.Keys - path|, 0
  {
    if x == n {
      p := [n];
    } else {
      assert g.Keys - (path + {n}) == (g.Keys - path) - {n};
      p := VisitAllReaches(g, g[n], path + {n}, order, x);
      WalkPrepend(g, n, p, x);
      p := [n] + p;
    }
  }

  lemma {:induction false} VisitAllReaches<V>(g: Graph<V>, kids: seq<V>, path: set<V>, order: seq<V>, x: V)
    returns (p: seq<V>)
    requires Closed(g) && (forall k :: k in kids ==> k in g) && x !in order
    requires VisitAll(g, kids, path, order).Ordered? && x in VisitAll(g, kids, path, order).order
    ensures WalkFrom(g, kids, p, x)
    decreases |g.Keys - path|, 1 + |kids|
  {
    var o := Visit(g, kids[0], path, order).order;
    if x in o {
      p := VisitReaches(g, kids[0], path, order, x);
    } else {
      p := VisitAllReaches(g, kids[1..], path, o, x);
    }
  }

  // ----- The order among what is asked for -----

  lemma {:induction false} VisitAllConcat<V>(g: Graph<V>, a: seq<V>, b: seq<V>, path: set<V>, order: seq<V>)
    requires Closed(g) && (forall k :: k in a ==> k in g) && (forall k :: k in b ==> k in g)
    ensures var r := VisitAll(g, a, path, order);
            VisitAll(g, a + b, path, order) == if r.Ordered? then VisitAll(g, b, path, r.order) else r
    decreases |a|
  {
    if a == [] {
      assert a + b == b;
    } else {
      hide Visit;
      assert (a + b)[0] == a[0] && (a + b)[1..] == a[1..] + b;
      VisitAllUnfold(g, a + b, path, order);
      VisitAllUnfold(g, a, path, order);
      match Visit(g, a[0], path, order)
      case Ordered(o) => VisitAllConcat(g, a[1..], b, path, o);
      case Cycle(c) =>
    }
  }

  lemma FromItsFirst<V>(g: Graph<V>, from: seq<V>, p: seq<V>, b: V)
    requires WalkFrom(g, from, p, b)
    ensures p[0] in from && WalkFrom(g, [p[0]], p, b)
  {
  }

  /** Of two nodes asked for, the one asked for first is finished first, unless the other is reached before that. */
  lemma FirstAskedFirstFinished<V>(g: Graph<V>, roots: seq<V>, i: nat, b: V, x: nat, y: nat)
    requires Closed(g) && (forall k :: k in roots ==> k in g) && VisitAll(g, roots, {}, []).Ordered?
    requires i < |roots| && b in roots && forall p, r :: r in roots[..i + 1] ==> !WalkFrom(g, [r], p, b)
    requires var o := VisitAll(g, roots, {}, []).order; x < |o| && y < |o| && o[x] == roots[i] && o[y] == b
    ensures x < y
  {
    hide Visit, VisitAll;
    var a, c := roots[..i + 1], roots[i + 1..];
    assert roots == a + c;
    VisitAllConcat(g, a, c, {}, []);
    VisitAllOrders(g, a, {}, []);
    var o1, o := VisitAll(g, a, {}, []).order, VisitAll(g, roots, {}, []).order;
    VisitAllOrders(g, c, {}, o1);
    assert a[i] == roots[i] && roots[i] in o1;
    var x' :| 0 <= x' < |o1| && o1[x'] == roots[i];
    assert o[x'] == o[x];
    if y < |o1| {
      assert o1[y] == b;
      var p := VisitAllReaches(g, a, {}, [], b);
      FromItsFirst(g, a, p, b);
      assert false;
    }
  }

  // ----- A walk that finds a cycle -----

  /** `c` is a walk that either ends where it begins or leads from `n` back into the path. */
  ghost predicate IsTrace<V>(g: Graph<V>, n: V, path: set<V>, c: seq<V>) {
    && IsWalk(g, c)
    && (IsOpenTrace(c) ==> c[0] == n && c[|c| - 1] in path)
  }

  lemma {:induction false} VisitTraces<V>(g: Graph<V>, n: V, path: set<V>, order: seq<V>) returns (p: seq<V>)
    requires Closed(g) && n in g && Visit(g, n, path, order).Cycle?
    ensures IsTrace(g, n, path, Visit(g, n, path, order).trace)
    ensures WalkFrom(g, [n], p, Visit(g, n, path, order).trace[0])
    decreases |g.Keys - path|, 0
  {
    if n in path {
      p := [n];
    } else {
      assert g.Keys - (path + {n}) == (g.Keys - path) - {n};
      var c := VisitAll(g, g[n], path + {n}, order).trace;
      var k;
      p, k := VisitAllTraces(g, g[n], path + {n}, order);
      if IsOpenTrace(c) {
        p := [n];
      } else {
        WalkPrepend(g, n, p, c[0]);
        p := [n] + p;
      }
    }
  }

  lemma {:induction false} VisitAllTraces<V>(g: Graph<V>, kids: seq<V>, path: set<V>, order: seq<V>)
    returns (p: seq<V>, k: V)
    requires Closed(g) && (forall k :: k in kids ==> k in g) && VisitAll(g, kids, path, order).Cycle?
    ensures k in kids && IsTrace(g, k, path, VisitAll(g, kids, path, order).trace)
    ensures WalkFrom(g, kids, p, VisitAll(g, kids, path, order).trace[0])
    decreases |g.Keys - path|, 1 + |kids|
  {
    if Visit(g, kids[0], path, order).Cycle? {
      k := kids[0];
      p := VisitTraces(g, k, path, order);
    } else {
      p, k := VisitAllTraces(g, kids[1..], path, Visit(g, kids[0], path, order).order);
    }
  }

  /** The trace of a search that started with nothing explored is a real cycle, written out to its first node. */
  lemma SearchFindsRealCycle<V>(g: Graph<V>, roots: seq<V>) returns (p: seq<V>)
    requires Closed(g) && (forall k :: k in roots ==> k in g) && VisitAll(g, roots, {}, []).Cycle?
    ensures var c := VisitAll(g, roots, {}, []).trace;
            && |c| >= 2 && c[0] == c[|c| - 1] && IsWalk(g, c) && IsCycle(g, c[..|c| - 1])
            && WalkFrom(g, roots, p, c[0])
  {
    var k;
    p, k := VisitAllTraces(g, roots, {}, []);
    var c := VisitAll(g, roots, {}, []).trace;
    assert !IsOpenTrace(c);
    assert Edge(g, c[|c| - 2], c[|c| - 2 + 1]);
  }

  /** A search that succeeds orders exactly the nodes that can be reached, none of which lies on a cycle. */
  lemma SearchOrders<V>(g: Graph<V>, roots: seq<V>)
    requires Closed(g) && (forall k :: k in roots ==> k in g) && VisitAll(g, roots, {}, []).Ordered?
    ensures var o := VisitAll(g, roots, {}, []).order;
            && NoDuplicates(o) && PostOrder(g, o) && (forall k :: k in roots ==> k in o)
            && (forall x :: x in o <==> exists p :: WalkFrom(g, roots, p, x))
            && (forall p, c :: IsCycle(g, c) ==> !WalkFrom(g, roots, p, c[0]))
  {
    var o := VisitAll(g, roots, {}, []).order;
    VisitAllOrders(g, roots, {}, []);
    forall x | x in o
      ensures exists p :: WalkFrom(g, roots, p, x)
    {
      var p := VisitAllReaches(g, roots, {}, [], x);
    }
    forall x, p | WalkFrom(g, roots, p, x)
      ensures x in o
    {
      PostOrderIsClosed(g, o, p);
    }
    forall p, c | IsCycle(g, c)
      ensures !WalkFrom(g, roots, p, c[0])
    {
      PostOrderHasNoCycle(g, o, c);
    }
  }

  /** The search reports a cycle exactly when one can be reached. */
  lemma SearchFailsIffCyclic<V>(g: Graph<V>, roots: seq<V>)
    requires Closed(g) && forall k :: k in roots ==> k in g
    ensures VisitAll(g, roots, {}, []).Cycle? <==>
            exists p, c :: IsCycle(g, c) && WalkFrom(g, roots, p, c[0])
  {
    match VisitAll(g, roots, {}, [])
    case Ordered(o) => SearchOrders(g, roots);
    case Cycle(c) =>
      var p := SearchFindsRealCycle(g, roots);
      assert IsCycle(g, c[..|c| - 1]) && WalkFrom(g, roots, p, c[..|c| - 1][0]);
  }

  // ----- Only what can be reached matters -----

  /** Both graphs have the same successors on `r`, and `r` cannot be left. */
  ghost predicate AgreeOn<V>(g: Graph<V>, h: Graph<V>, r: set<V>) {
    forall n :: n in r ==> n in g && n in h && g[n] == h[n] && forall m :: m in g[n] ==> m in r
  }

  lemma {:induction false} VisitAgrees<V>(g: Graph<V>, h: Graph<V>, r: set<V>, n: V, path: set<V>, order: seq<V>)
    requires Closed(g) && Closed(h) && AgreeOn(g, h, r) && n in r
    ensures Visit(g, n, path, order) == Visit(h, n, path, order)
    decreases |g.Keys - path|, 0
  {
    if n !in path && n !in order {
      assert g.Keys - (path + {n}) == (g.Keys - path) - {n};
      VisitAllAgrees(g, h, r, g[n], path + {n}, order);
    }
  }

  lemma {:induction false} VisitAllAgrees<V>(
    g: Graph<V>, h: Graph<V>, r: set<V>, kids: seq<V>, path: set<V>, order: seq<V>)
    requires Closed(g) && Closed(h) && AgreeOn(g, h, r) && forall k :: k in kids ==> k in r
    ensures VisitAll(g, kids, path, order) == VisitAll(h, kids, path, order)
    decreases |g.Keys - path|, 1 + |kids|
  {
    if kids != [] {
      VisitAgrees(g, h, r, kids[0], path, order);
      match Visit(g, kids[0], path, order)
      case Ordered(o) => VisitAllAgrees(g, h, r, kids[1..], path, o);
      case Cycle(c) =>
    }
  }
}
