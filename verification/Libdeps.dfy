/**
 Library dependencies of site_scons/libdeps.py: nodes carry their direct dependencies, a sorted
 copy of them, an exploring flag and the answer computed before. All of these are attributes
 written in place.
 */
module Libdeps {
  import opened Options
  import opened Sequences
  import opened Sorting
  import opened Digraph
  import opened DependencySearch

  datatype DependencyType = Public | Private | Interface

  datatype Dependency = Dependency(target: Node, kind: DependencyType)

  class Node {
    const name: string
    var direct: Option<seq<Dependency>>
    var directSorted: Option<seq<Dependency>>
    var exploring: bool
    var cached: Option<seq<Node>>
    /** The lists the cached answer was computed from, and the libraries the walk could reach then. */
    ghost var seen: Lists
    ghost var reach: set<Node>

    constructor (name: string)
      ensures this.name == name
      ensures direct == None && directSorted == None && !exploring && cached == None
    {
      this.name := name;
      direct := None;
      directSorted := None;
      exploring := false;
      cached := None;
      seen := map[];
      reach := {};
    }

    function Direct(): seq<Dependency>
      reads this`direct
    {
      if direct.Some? then direct.value else []
    }

    /** An empty copy counts as missing. */
    predicate HasNoCopy()
      reads this`directSorted
    {
      directSorted.None? || directSorted.value == []
    }

    /** The list the walk uses: the sorted copy, unless that is missing or empty. */
    function Effective(): seq<Dependency>
      reads this`direct, this`directSorted
    {
      if HasNoCopy() then SortByName(Direct()) else directSorted.value
    }

    /** The sorted copy is missing or hides nothing. */
    ghost predicate IsUpToDate()
      reads this`direct, this`directSorted
      ensures IsUpToDate() <==> Effective() == SortByName(Direct())
    {
      HasNoCopy() || directSorted.value == SortByName(Direct())
    }
  }

  function SortByName(ds: seq<Dependency>): seq<Dependency> {
    Sort(ds, (d: Dependency) => d.target.name, StringLe)
  }

  /** The targets of the dependencies that are not of kind `skip`, in the given order. */
  function Targets(ds: seq<Dependency>, skip: DependencyType): seq<Node> {
    if ds == [] then []
    else (if ds[0].kind != skip then [ds[0].target] else []) + Targets(ds[1..], skip)
  }

  lemma {:induction false} TargetsMembers(ds: seq<Dependency>, skip: DependencyType)
    ensures forall t :: t in Targets(ds, skip) ==> exists d :: d in ds && d.kind != skip && d.target == t
    ensures forall d :: d in ds && d.kind != skip ==> d.target in Targets(ds, skip)
  {
    if ds != [] {
      TargetsMembers(ds[1..], skip);
      assert ds == [ds[0]] + ds[1..];
    }
  }

  lemma TargetsFirst(ds: seq<Dependency>, i: nat, skip: DependencyType)
    requires i < |ds|
    ensures forall t :: t in Targets(ds[i..], skip) ==> t in Targets(ds, skip)
    ensures ds[i].kind == skip ==> Targets(ds[i..], skip) == Targets(ds[i + 1..], skip)
    ensures ds[i].kind != skip ==>
              var ts := Targets(ds[i..], skip);
              ts != [] && ts[0] == ds[i].target && ts[1..] == Targets(ds[i + 1..], skip)
  {
    assert ds[i..][0] == ds[i] && ds[i..][1..] == ds[i + 1..];
    assert forall d :: d in ds[i..] ==> d in ds;
    TargetsMembers(ds[i..], skip);
    TargetsMembers(ds, skip);
  }

  lemma TargetsNone(ds: seq<Dependency>, skip: DependencyType)
    ensures Targets(ds[|ds|..], skip) == []
  {
  }

  /** For every library the dependency list the walk uses. */
  type Lists = map<Node, seq<Dependency>>

  ghost predicate ClosedLists(ls: Lists) {
    forall n, d :: n in ls && d in ls[n] ==> d.target in ls
  }

  /** The edges followed below the first step. */
  ghost function LinkGraph(ls: Lists): Graph<Node> {
    map n | n in ls :: Targets(ls[n], Private)
  }

  lemma LinkGraphClosed(ls: Lists)
    requires ClosedLists(ls)
    ensures Closed(LinkGraph(ls))
    ensures forall n, skip, t :: n in ls && t in Targets(ls[n], skip) ==> t in LinkGraph(ls)
  {
    forall n, skip, t | n in ls && t in Targets(ls[n], skip)
      ensures t in LinkGraph(ls)
    {
      TargetsMembers(ls[n], skip);
    }
  }

  lemma LinkGraphAt(ls: Lists, n: Node, skip: DependencyType)
    requires ClosedLists(ls) && n in ls
    ensures var g := LinkGraph(ls);
            && Closed(g) && g.Keys == ls.Keys && g[n] == Targets(ls[n], Private)
            && forall t :: t in Targets(ls[n], skip) ==> t in g
  {
    LinkGraphClosed(ls);
  }

  ghost function Explore(ls: Lists, n: Node, path: set<Node>, order: seq<Node>): Outcome<Node>
    requires ClosedLists(ls) && n in ls
  {
    LinkGraphAt(ls, n, Private);
    Visit(LinkGraph(ls), n, path, order)
  }

  ghost function ExploreChildren(ls: Lists, n: Node, skip: DependencyType, path: set<Node>, order: seq<Node>)
    : Outcome<Node>
    requires ClosedLists(ls) && n in ls
  {
    LinkGraphAt(ls, n, skip);
    VisitAll(LinkGraph(ls), Targets(ls[n], skip), path, order)
  }

  lemma ExploreUnfold(ls: Lists, n: Node, path: set<Node>, order: seq<Node>)
    requires ClosedLists(ls) && n in ls
    ensures n in path ==> Explore(ls, n, path, order) == Cycle([n])
    ensures n !in path && n in order ==> Explore(ls, n, path, order) == Ordered(order)
    ensures n !in path && n !in order ==>
              var r := ExploreChildren(ls, n, Private, path + {n}, order);
              Explore(ls, n, path, order) ==
              if r.Ordered? then Ordered(r.order + [n]) else Cycle(Extend(n, r.trace))
  {
    hide ClosedLists, Visit, VisitAll, Targets, Closed;
    LinkGraphAt(ls, n, Private);
    VisitUnfold(LinkGraph(ls), n, path, order);
    if n !in path && n !in order {
      VisitExplore(LinkGraph(ls), n, path, order);
    }
  }

  datatype Answer = Libraries(list: seq<Node>) | CycleError(trace: seq<Node>)

  /** What `__get_libdeps` computes when nothing is cached. */
  ghost function Compute(ls: Lists, node: Node): Answer
    requires ClosedLists(ls) && node in ls
  {
    match ExploreChildren(ls, node, Interface, {}, [])
    case Ordered(o) => Libraries(Reverse(o))
    case Cycle(c) => CycleError(c)
  }

  // ----- The attributes on the heap -----

  ghost function EffectiveLists(all: set<Node>): Lists
    reads all
  {
    map n | n in all :: n.Effective()
  }

  ghost function FreshLists(all: set<Node>): Lists
    reads all
  {
    map n | n in all :: SortByName(n.Direct())
  }

  function WithName(ds: seq<Dependency>, name: string): seq<Dependency> {
    Having(ds, (d: Dependency) => d.target.name, name)
  }

  /** The same dependencies, ascending by name, those with equal names in the order they had. */
  ghost predicate IsSortedCopy(direct: seq<Dependency>, ds: seq<Dependency>) {
    && multiset(ds) == multiset(direct)
    && (forall i, j :: 0 <= i < j < |ds| ==> Precedes(ds[i].target.name, ds[j].target.name))
    && (forall name :: WithName(ds, name) == WithName(direct, name))
  }

  lemma SortByNameIsSorted(direct: seq<Dependency>)
    ensures IsSortedCopy(direct, SortByName(direct))
  {
    hide Sort, TotalOrder, SortedBy, StringLe, Precedes, Having;
    var key := (d: Dependency) => d.target.name;
    var ds := SortByName(direct);
    StringLeIsTotalOrder();
    SortKeeps(direct, key, StringLe);
    SortSorts(direct, key, StringLe);
    forall i, j | 0 <= i < j < |ds|
      ensures Precedes(ds[i].target.name, ds[j].target.name)
    {
      SortedAt(ds, key, i, j);
      StringLeIff(ds[i].target.name, ds[j].target.name);
    }
    forall name
      ensures WithName(ds, name) == WithName(direct, name)
    {
      SortStable(direct, key, StringLe, name);
    }
  }

  lemma SortedAt(ds: seq<Dependency>, key: Dependency -> string, i: nat, j: nat)
    requires SortedBy(ds, key, StringLe) && i < j < |ds|
    ensures StringLe(key(ds[i]), key(ds[j]))
  {
  }

  method GetSortedDirectLibdeps(node: Node) returns (ds: seq<Dependency>)
    modifies node`directSorted
    ensures ds == old(node.Effective()) == node.Effective()
    ensures node.directSorted == Some(ds)
    ensures old(node.HasNoCopy()) ==> IsSortedCopy(node.Direct(), ds)
  {
    hide IsSortedCopy;
    SortByNameIsSorted(node.Direct());
    ds := if node.directSorted.Some? then node.directSorted.value else [];
    if ds == [] {
      ds := SortByName(node.Direct());
      node.directSorted := Some(ds);
    }
  }

  method AppendDirectLibdeps(node: Node, prereqs: seq<Dependency>)
    modifies node`direct
    ensures node.Direct() == old(node.Direct()) + prereqs
    // A sorted copy that is not empty hides the new dependencies; otherwise they are seen.
    ensures !node.HasNoCopy() ==> node.Effective() == old(node.Effective())
    ensures node.HasNoCopy() ==> node.Effective() == SortByName(old(node.Direct()) + prereqs)
    ensures old(node.IsUpToDate()) ==> (node.IsUpToDate() <==> prereqs == [] || node.HasNoCopy())
  {
    SortKeeps(node.Direct(), (d: Dependency) => d.target.name, StringLe);
    SortKeeps(node.Direct() + prereqs, (d: Dependency) => d.target.name, StringLe);
    assert node.Direct() + [] == node.Direct();
    if node.direct.None? {
      node.direct := Some([]);
    }
    node.direct := Some(node.direct.value + prereqs);
  }

  lemma ElementsPush(s: seq<Node>, n: Node)
    ensures Elements(s + [n]) == Elements(s) + {n}
  {
  }

  /** No dependency of a kind other than `skip` leads out of `reach`. */
  ghost predicate LeadsInto(ds: seq<Dependency>, skip: DependencyType, reach: set<Node>) {
    forall d :: d in ds && d.kind != skip ==> d.target in reach
  }

  /** `reach` holds what the walk from `n` can reach. */
  ghost predicate IsReach(ls: Lists, n: Node, reach: set<Node>) {
    && n in ls && LeadsInto(ls[n], Interface, reach)
    && LinkClosed(ls, reach)
  }

  ghost predicate LinkClosed(ls: Lists, reach: set<Node>) {
    forall x :: x in reach ==> x in ls && LeadsInto(ls[x], Private, reach)
  }

  /** The variables the nested function `visit` shares with its callers. */
  class Walk {
    var tsorted: seq<Node>
    var marked: set<Node>
    /** The libraries whose sorted copy the walk has asked for. */
    ghost var copied: set<Node>

    constructor ()
      ensures tsorted == [] && marked == Elements(tsorted) && copied == {}
    {
      tsorted := [];
      marked := {};
      copied := {};
    }

    /** The walk and the attributes agree: lists, exploring flags, marks and sorted copies. */
    ghost predicate Agrees(all: set<Node>, ls: Lists, path: set<Node>)
      reads this, all
    {
      && ls.Keys == all && path <= all
      && (forall n :: n in all ==> n.Effective() == ls[n])
      && (forall n :: n in all ==> (n.exploring <==> n in path))
      && marked == Elements(tsorted)
      && marked <= copied <= all
      && (forall n :: n in copied ==> n.directSorted == Some(ls[n]))
    }

    /** The walk enters `n`. */
    method BeginExploring(n: Node, ghost all: set<Node>, ghost ls: Lists, ghost path: set<Node>)
      requires Agrees(all, ls, path) && n in all
      modifies n`exploring
      ensures Agrees(all, ls, path + {n})
    {
      n.exploring := true;
    }

    /** The walk leaves `n`, whether or not a cycle was found. */
    method EndExploring(n: Node, ghost all: set<Node>, ghost ls: Lists, ghost path: set<Node>)
      requires Agrees(all, ls, path + {n}) && n !in path
      modifies n`exploring
      ensures Agrees(all, ls, path)
    {
      n.exploring := false;
    }

    method Finish(n: Node, ghost all: set<Node>, ghost ls: Lists, ghost path: set<Node>)
      requires Agrees(all, ls, path) && n in copied
      modifies this`tsorted, this`marked
      ensures Agrees(all, ls, path) && tsorted == old(tsorted) + [n]
    {
      ElementsPush(tsorted, n);
      marked := marked + {n};
      tsorted := tsorted + [n];
    }

    /** The sorted dependencies of `n`, whose copy is there from then on. */
    method SortedChildren(n: Node, ghost all: set<Node>, ghost ls: Lists, ghost path: set<Node>)
      returns (ds: seq<Dependency>)
      requires Agrees(all, ls, path) && n in all
      modifies n`directSorted, this`copied
      ensures Agrees(all, ls, path) && ls.Keys == all && ds == ls[n] && copied == old(copied) + {n}
    {
      ds := GetSortedDirectLibdeps(n);
      copied := copied + {n};
    }

    lemma AgreesAt(n: Node, all: set<Node>, ls: Lists, path: set<Node>)
      requires Agrees(all, ls, path) && n in all
      ensures ls.Keys == all && path <= all
      ensures n.exploring <==> n in path
      ensures n in marked <==> n in tsorted
    {
    }

    /** Returns the nodes of the cycle when a cycle error is raised. */
    method Visit(n: Node, ghost all: set<Node>, ghost ls: Lists, ghost path: set<Node>, ghost reach: set<Node>)
      returns (raised: Option<seq<Node>>)
      requires ClosedLists(ls) && Agrees(all, ls, path) && reach <= all && LinkClosed(ls, reach) && n in reach
      modifies this, all`exploring, reach`directSorted
      ensures Agrees(all, ls, path) && old(copied) <= copied
      ensures ls.Keys == all && Follows(Explore(ls, n, path, old(tsorted)), raised, tsorted)
      decreases |all - path|, 0
    {
      hide ClosedLists, Explore, ExploreChildren, Agrees, Elements, LinkClosed;
      AgreesAt(n, all, ls, path);
      if n.exploring {
        ExploreUnfold(ls, n, path, tsorted);
        return Some([n]);
      }
      BeginExploring(n, all, ls, path);
      assert all - (path + {n}) == (all - path) - {n};
      raised := VisitBelow(n, all, ls, path, reach);
      EndExploring(n, all, ls, path);
    }

    /** The part of the visit during which `n` is flagged as being explored. */
    method VisitBelow(n: Node, ghost all: set<Node>, ghost ls: Lists, ghost path: set<Node>, ghost reach: set<Node>)
      returns (raised: Option<seq<Node>>)
      requires ClosedLists(ls) && Agrees(all, ls, path + {n}) && n !in path
      requires reach <= all && LinkClosed(ls, reach) && n in reach
      modifies this, all`exploring, reach`directSorted
      ensures Agrees(all, ls, path + {n}) && old(copied) <= copied
      ensures ls.Keys == all && Follows(Explore(ls, n, path, old(tsorted)), raised, tsorted)
      decreases |all - (path + {n})|, 2
    {
      hide ClosedLists, Explore, ExploreChildren, Agrees, Elements;
      AgreesAt(n, all, ls, path + {n});
      ExploreUnfold(ls, n, path, tsorted);
      if n in marked {
        return None;
      }
      raised := VisitChildren(n, Private, all, ls, path + {n}, reach);
      if raised.None? {
        Finish(n, all, ls, path + {n});
      } else if |raised.value| == 1 || raised.value[0] != raised.value[|raised.value| - 1] {
        raised := Some([n] + raised.value);
      }
    }

    /** The loop over the sorted direct dependencies of `n`, leaving out those of kind `skip`. */
    method VisitChildren(n: Node, skip: DependencyType, ghost all: set<Node>, ghost ls: Lists, ghost path: set<Node>,
                         ghost reach: set<Node>)
      returns (raised: Option<seq<Node>>)
      requires ClosedLists(ls) && Agrees(all, ls, path) && n in ls && n in all
      requires reach <= all && LinkClosed(ls, reach) && LeadsInto(ls[n], skip, reach)
      modifies this, all`exploring, n`directSorted, reach`directSorted
      ensures Agrees(all, ls, path) && old(copied) + {n} <= copied
      ensures ls.Keys == all && Follows(ExploreChildren(ls, n, skip, path, old(tsorted)), raised, tsorted)
      decreases |all - path|, 1
    {
      hide LinkGraph, ClosedLists, DependencySearch.Visit, DependencySearch.VisitAll, Closed, Targets, Agrees, LinkClosed;
      LinkGraphAt(ls, n, skip);
      var ds := SortedChildren(n, all, ls, path);
      ghost var g := LinkGraph(ls);
      ghost var goal := VisitAll(g, Targets(ds, skip), path, tsorted);
      raised := None;
      var i := 0;
      assert ds[0..] == ds;
      while i < |ds|
        invariant 0 <= i <= |ds|
        invariant Agrees(all, ls, path) && old(copied) + {n} <= copied
        invariant raised == None
        invariant forall t :: t in Targets(ds[i..], skip) ==> t in g
        invariant goal == VisitAll(g, Targets(ds[i..], skip), path, tsorted)
        decreases |ds| - i
      {
        TargetsFirst(ds, i, skip);
        if ds[i].kind != skip {
          VisitAllUnfold(g, Targets(ds[i..], skip), path, tsorted);
          raised := Visit(ds[i].target, all, ls, path, reach);
          if raised.Some? {
            return;
          }
        }
        i := i + 1;
      }
      TargetsNone(ds, skip);
      VisitAllNone(g, path, tsorted);
    }
  }

  /** `raised` and `tsorted` are what the search `r` says. */
  ghost predicate Follows(r: Outcome<Node>, raised: Option<seq<Node>>, tsorted: seq<Node>) {
    match r
    case Ordered(o) => raised == None && tsorted == o
    case Cycle(c) => raised == Some(c) && |c| > 0
  }

  /** The answer kept on the node is the one computed from the lists seen then. */
  ghost predicate CacheSound(n: Node)
    reads n`cached, n`seen, n`reach
  {
    n.cached.Some? ==>
      && ClosedLists(n.seen) && n in n.seen && Compute(n.seen, n) == Libraries(n.cached.value)
      && IsReach(n.seen, n, n.reach)
  }

  /** The walk itself. It changes no list it uses, and leaves a sorted copy on every library it returns. */
  method WalkLibdeps(node: Node, ghost all: set<Node>, ghost ls: Lists, ghost reach: set<Node>) returns (r: Answer)
    requires node in all && ls == EffectiveLists(all) && ClosedLists(ls)
    requires reach <= all && IsReach(ls, node, reach) && forall n :: n in all ==> !n.exploring
    modifies all`exploring, node`directSorted, reach`directSorted
    ensures EffectiveLists(all) == ls && r == Compute(ls, node)
    ensures forall n :: n in all ==> !n.exploring
    ensures node.directSorted == Some(ls[node])
    ensures r.Libraries? ==> forall n :: n in r.list ==> n in all && n.directSorted == Some(ls[n])
  {
    hide ClosedLists, Compute, ExploreChildren, Node.Effective, SortByName, IsReach;
    ReachParts(ls, node, reach);
    var walk := new Walk();
    var raised := walk.VisitChildren(node, Interface, all, ls, {}, reach);
    ComputeUnfold(ls, node);
    if raised.Some? {
      return CycleError(raised.value);
    }
    ReverseMembers(walk.tsorted);
    r := Libraries(Reverse(walk.tsorted));
  }

  /** `reach` is any set that holds what the walk can reach; no sorted copy outside of it is written. */
  method GetLibdeps(node: Node, ghost all: set<Node>, ghost reach: set<Node>) returns (r: Answer)
    requires node in all && ClosedLists(EffectiveLists(all))
    requires reach <= all && IsReach(EffectiveLists(all), node, reach)
    requires forall n :: n in all ==> !n.exploring
    requires forall n :: n in all ==> CacheSound(n)
    modifies node`cached, node`seen, node`reach, all`exploring, node`directSorted, reach`directSorted
    ensures EffectiveLists(all) == old(EffectiveLists(all))
    ensures forall n :: n in all ==> !n.exploring
    ensures forall n :: n in all ==> CacheSound(n)
    ensures forall n :: n in all ==> (n.IsUpToDate() <==> old(n.IsUpToDate()))
    ensures old(node.cached).Some? ==>
              && r == Libraries(old(node.cached).value) && node.cached == old(node.cached)
              && node.seen == old(node.seen) && node.reach == old(node.reach)
    ensures old(node.cached).None? ==>
              && r == Compute(old(EffectiveLists(all)), node)
              && node.cached == (if r.Libraries? then Some(r.list) else None)
              && node.directSorted == Some(node.Effective())
              && (r.Libraries? ==> node.seen == old(EffectiveLists(all)) && node.reach == reach)
    // Every library of a new answer has its sorted copy from now on.
    ensures old(node.cached).None? && r.Libraries? ==>
              forall n :: n in r.list ==> n in all && n.directSorted == Some(n.Effective())
  {
    hide ClosedLists, Compute, ExploreChildren, Node.Effective, SortByName, IsReach;
    if node.cached.Some? {
      return Libraries(node.cached.value);
    }
    ghost var ls := EffectiveLists(all);
    r := WalkLibdeps(node, all, ls, reach);
    assert forall n :: n in all ==> n.Effective() == EffectiveLists(all)[n];
    if r.Libraries? {
      node.cached := Some(r.list);
      node.seen := ls;
      node.reach := reach;
    }
  }

  lemma ReachParts(ls: Lists, n: Node, reach: set<Node>)
    requires IsReach(ls, n, reach)
    ensures n in ls && LeadsInto(ls[n], Interface, reach) && LinkClosed(ls, reach)
  {
  }

  lemma ComputeUnfold(ls: Lists, node: Node)
    requires ClosedLists(ls) && node in ls
    ensures var r := ExploreChildren(ls, node, Interface, {}, []);
            Compute(ls, node) == if r.Ordered? then Libraries(Reverse(r.order)) else CycleError(r.trace)
  {
  }

  // ----- What the answer is -----

  /**
   The answer lists, once each, every library reachable by a first dependency that is not an
   interface dependency and then dependencies that are not private; every library comes before
   each of its own dependencies that are not private.
   */
  lemma LibrariesInLinkOrder(ls: Lists, node: Node)
    requires ClosedLists(ls) && node in ls && Compute(ls, node).Libraries?
    ensures var list, g := Compute(ls, node).list, LinkGraph(ls);
            && NoDuplicates(list)
            && (forall p, x :: WalkFrom(g, Targets(ls[node], Interface), p, x) ==> x in list)
            && (forall i, m :: 0 <= i < |list| && Edge(g, list[i], m) ==> m in list[i + 1..])
  {
    hide ClosedLists, Targets, VisitAll;
    LinkGraphAt(ls, node, Interface);
    var g, roots := LinkGraph(ls), Targets(ls[node], Interface);
    VisitAllOrders(g, roots, {}, []);
    var o := VisitAll(g, roots, {}, []).order;
    var list := Compute(ls, node).list;
    ReverseMembers(o);
    forall p, x | WalkFrom(g, roots, p, x)
      ensures x in list
    {
      PostOrderIsClosed(g, o, p);
    }
    forall i, m | 0 <= i < |list| && Edge(g, list[i], m)
      ensures m in list[i + 1..]
    {
      var k := |o| - 1 - i;
      assert m in o[..k];
      var j :| 0 <= j < k && o[..k][j] == m;
      assert list[|o| - 1 - j] == m;
    }
  }

  /** Nothing else is in the answer. */
  lemma LibrariesAreReachable(ls: Lists, node: Node, x: Node) returns (p: seq<Node>)
    requires ClosedLists(ls) && node in ls && Compute(ls, node).Libraries? && x in Compute(ls, node).list
    ensures WalkFrom(LinkGraph(ls), Targets(ls[node], Interface), p, x)
  {
    hide ClosedLists, Targets, VisitAll;
    LinkGraphAt(ls, node, Interface);
    var g, roots := LinkGraph(ls), Targets(ls[node], Interface);
    ReverseMembers(VisitAll(g, roots, {}, []).order);
    p := VisitAllReaches(g, roots, {}, [], x);
  }

  /**
   A cycle error reports libraries that begin and end with the same one and follow real
   dependencies that are not private; the cycle can be reached from the node.
   */
  lemma CycleErrorIsReal(ls: Lists, node: Node) returns (p: seq<Node>)
    requires ClosedLists(ls) && node in ls && Compute(ls, node).CycleError?
    ensures var c, g := Compute(ls, node).trace, LinkGraph(ls);
            && |c| >= 2 && c[0] == c[|c| - 1] && IsWalk(g, c) && IsCycle(g, c[..|c| - 1])
            && WalkFrom(g, Targets(ls[node], Interface), p, c[0])
  {
    hide ClosedLists, Targets, VisitAll;
    LinkGraphAt(ls, node, Interface);
    p := SearchFindsRealCycle(LinkGraph(ls), Targets(ls[node], Interface));
  }

  /** Whenever such a cycle can be reached, the error is raised. */
  lemma CycleIsReported(ls: Lists, node: Node, p: seq<Node>, c: seq<Node>)
    requires ClosedLists(ls) && node in ls
    requires IsCycle(LinkGraph(ls), c) && WalkFrom(LinkGraph(ls), Targets(ls[node], Interface), p, c[0])
    ensures Compute(ls, node).CycleError?
  {
    hide ClosedLists, Targets, VisitAll;
    LinkGraphAt(ls, node, Interface);
    var g, roots := LinkGraph(ls), Targets(ls[node], Interface);
    if VisitAll(g, roots, {}, []).Ordered? {
      var o := VisitAll(g, roots, {}, []).order;
      VisitAllOrders(g, roots, {}, []);
      PostOrderIsClosed(g, o, p);
      PostOrderHasNoCycle(g, o, c);
    }
  }

  // ----- The order among independent libraries -----

  /** Every pair of dependencies is in the order of the names. */
  ghost predicate IsByName(ds: seq<Dependency>) {
    forall i, j :: 0 <= i < j < |ds| ==> Precedes(ds[i].target.name, ds[j].target.name)
  }

  ghost predicate NamesAscend(ts: seq<Node>) {
    forall i, j :: 0 <= i < j < |ts| ==> Precedes(ts[i].name, ts[j].name)
  }

  /** A list that was sorted is by name. */
  lemma SortedIsByName(direct: seq<Dependency>)
    ensures IsByName(SortByName(direct))
  {
    SortByNameIsSorted(direct);
  }

  lemma {:induction false} TargetsByName(ds: seq<Dependency>, skip: DependencyType)
    requires IsByName(ds)
    ensures NamesAscend(Targets(ds, skip))
  {
    hide Precedes;
    if ds != [] {
      var rest := Targets(ds[1..], skip);
      assert IsByName(ds[1..]) by {
        forall i, j | 0 <= i < j < |ds[1..]|
          ensures Precedes(ds[1..][i].target.name, ds[1..][j].target.name)
        {
          assert ds[1..][i] == ds[i + 1] && ds[1..][j] == ds[j + 1];
        }
      }
      TargetsByName(ds[1..], skip);
      TargetsMembers(ds[1..], skip);
      forall k | 0 <= k < |rest|
        ensures Precedes(ds[0].target.name, rest[k].name)
      {
        assert rest[k] in rest;
        var d :| d in ds[1..] && d.target == rest[k];
        var i :| 0 <= i < |ds[1..]| && ds[1..][i] == d;
        assert ds[i + 1] == d;
      }
      AscendsWith(ds[0].target, rest);
      assert [] + rest == rest;
    }
  }

  lemma AscendsWith(t: Node, rest: seq<Node>)
    requires NamesAscend(rest) && forall k :: 0 <= k < |rest| ==> Precedes(t.name, rest[k].name)
    ensures NamesAscend([t] + rest)
  {
    hide Precedes;
  }

  lemma PrecedesOnce(a: string, b: string)
    requires Precedes(a, b) && Precedes(b, a)
    ensures a == b
  {
    hide Precedes, StringLe;
    StringLeIff(a, b);
    StringLeIff(b, a);
    StringLeTotal(a, b);
  }

  /**
   Of two libraries a node depends on directly, the one with the smaller name comes later in the answer,
   unless some other direct dependency of the node reaches the one with the greater name.
   */
  lemma SmallerNameComesLater(ls: Lists, node: Node, a: Node, b: Node, x: nat, y: nat)
    requires ClosedLists(ls) && node in ls && IsByName(ls[node]) && Compute(ls, node).Libraries?
    requires a in Targets(ls[node], Interface) && b in Targets(ls[node], Interface)
    requires a.name != b.name && Precedes(a.name, b.name)
    requires forall r, p :: r in Targets(ls[node], Interface) && r != b ==> !WalkFrom(LinkGraph(ls), [r], p, b)
    requires var list := Compute(ls, node).list; x < |list| && y < |list| && list[x] == a && list[y] == b
    ensures y < x
  {
    hide ClosedLists, Targets, VisitAll, Precedes, IsByName;
    LinkGraphAt(ls, node, Interface);
    var g, roots := LinkGraph(ls), Targets(ls[node], Interface);
    TargetsByName(ls[node], Interface);
    var i :| 0 <= i < |roots| && roots[i] == a;
    forall r | r in roots[..i + 1]
      ensures r in roots && r != b
    {
      var k :| 0 <= k < i + 1 && roots[..i + 1][k] == r;
      if r == b {
        assert k < i;
        PrecedesOnce(a.name, b.name);
        assert false;
      }
    }
    var o := VisitAll(g, roots, {}, []).order;
    assert Compute(ls, node).list == Reverse(o);
    FirstAskedFirstFinished(g, roots, i, b, |o| - 1 - x, |o| - 1 - y);
  }

  // ----- Caching -----

  /** `x` is `node` or reachable from it, as far as linking goes. */
  ghost predicate Reachable(ls: Lists, node: Node, p: seq<Node>, x: Node)
    requires node in ls
  {
    x == node || WalkFrom(LinkGraph(ls), Targets(ls[node], Interface), p, x)
  }

  /** Lists of nodes that cannot be reached do not matter. */
  lemma OnlyReachableMatters(ls: Lists, ls': Lists, node: Node)
    requires ClosedLists(ls) && ClosedLists(ls') && node in ls && node in ls'
    requires forall p, x :: Reachable(ls, node, p, x) ==> x in ls && x in ls' && ls'[x] == ls[x]
    ensures Compute(ls', node) == Compute(ls, node)
  {
    hide ClosedLists, Targets, VisitAll;
    assert Reachable(ls, node, [], node);
    LinkGraphAt(ls, node, Interface);
    LinkGraphAt(ls', node, Interface);
    var g, h, roots := LinkGraph(ls), LinkGraph(ls'), Targets(ls[node], Interface);
    var r := set x | x in ls && exists p :: WalkFrom(g, roots, p, x);
    forall n | n in r
      ensures n in g && n in h && g[n] == h[n] && forall m :: m in g[n] ==> m in r
    {
      var p :| WalkFrom(g, roots, p, n);
      assert Reachable(ls, node, p, n);
      forall m | m in g[n]
        ensures m in r
      {
        WalkAppend(g, roots, p, n, m);
        LinkGraphAt(ls, n, Private);
        assert WalkFrom(g, roots, p + [m], m);
      }
    }
    forall k | k in roots
      ensures k in r
    {
      assert WalkFrom(g, roots, [k], k);
    }
    VisitAllAgrees(g, h, r, roots, {}, []);
  }

  lemma WalkAppend(g: Graph<Node>, from: seq<Node>, p: seq<Node>, n: Node, m: Node)
    requires WalkFrom(g, from, p, n) && Edge(g, n, m)
    ensures WalkFrom(g, from, p + [m], m)
  {
    var q := p + [m];
    forall i | 0 <= i < |q| - 1
      ensures Edge(g, q[i], q[i + 1])
    {
      if i < |p| - 1 {
        assert Edge(g, p[i], p[i + 1]);
      }
    }
  }

  /**
   If the sorted direct dependencies of every reachable library are still the lists the cached answer
   was computed from, that answer is what a fresh computation from the direct dependencies gives.
   */
  lemma CachedAnswerIsFresh(node: Node, all: set<Node>)
    requires node in all && node.cached.Some? && CacheSound(node) && ClosedLists(FreshLists(all))
    requires forall p, x :: Reachable(node.seen, node, p, x) ==>
               x in all && x in node.seen && SortByName(x.Direct()) == node.seen[x]
    ensures Compute(FreshLists(all), node) == Libraries(node.cached.value)
  {
    hide ClosedLists, Compute, Reachable;
    OnlyReachableMatters(node.seen, FreshLists(all), node);
  }

  /** Lists that agree on a node and on what can be reached from it give the same answer. */
  lemma AgreeOnReach(ls: Lists, ls': Lists, node: Node, reach: set<Node>)
    requires ClosedLists(ls) && ClosedLists(ls') && IsReach(ls, node, reach)
    requires node in ls' && ls'[node] == ls[node]
    requires forall x :: x in reach ==> x in ls && x in ls' && ls'[x] == ls[x]
    ensures Compute(ls', node) == Compute(ls, node)
  {
    hide ClosedLists, VisitAll;
    LinkGraphAt(ls, node, Interface);
    LinkGraphAt(ls', node, Interface);
    var g, h, roots := LinkGraph(ls), LinkGraph(ls'), Targets(ls[node], Interface);
    TargetsMembers(ls[node], Interface);
    forall n | n in reach
      ensures n in g && n in h && g[n] == h[n] && forall m :: m in g[n] ==> m in reach
    {
      TargetsMembers(ls[n], Private);
    }
    VisitAllAgrees(g, h, reach, roots, {}, []);
  }

  // ----- Runs of both operations -----

  ghost function DirectLists(all: set<Node>): Lists
    reads all
  {
    map n | n in all :: n.Direct()
  }

  ghost function Sorted(ls: Lists): Lists {
    map n | n in ls :: SortByName(ls[n])
  }

  datatype Operation = Get(node: Node) | Append(node: Node, prereqs: seq<Dependency>)

  /** The direct dependencies after the operations. */
  ghost function ListsAfter(ls: Lists, ops: seq<Operation>): (r: Lists)
    ensures r.Keys == ls.Keys
  {
    if ops == [] then ls
    else
      var r, op := ListsAfter(ls, Pop(ops)), Top(ops);
      if op.Append? && op.node in r then r[op.node := r[op.node] + op.prereqs] else r
  }

  /** The libraries an answer was computed from have the same lists now. */
  ghost predicate IsCurrent(n: Node, ls: Lists)
    reads n`seen, n`reach
  {
    && n in ls && n in n.seen && ls[n] == n.seen[n]
    && forall x :: x in n.reach ==> x in ls && x in n.seen && ls[x] == n.seen[x]
  }

  /** Nothing of `n` is hidden, and only libraries in `touched` have copies or take part in cached answers. */
  ghost predicate NodeInSession(n: Node, touched: set<Node>, ls: Lists)
    reads n
  {
    && n in ls && ls[n] == SortByName(n.Direct())
    && n.IsUpToDate() && !n.exploring && CacheSound(n)
    && (n !in touched ==> n.HasNoCopy())
    && (n.cached.Some? ==> n in touched && n.reach <= touched && IsCurrent(n, ls))
  }

  /** In a run where appends come in time; `ls` are the sorted direct dependencies. */
  ghost predicate InSession(all: set<Node>, touched: set<Node>, ls: Lists)
    reads all
  {
    && ls.Keys == all && ClosedLists(ls)
    && (forall n :: n in all ==> NodeInSession(n, touched, ls))
  }

  lemma CurrentAnswerIsFresh(n: Node, ls: Lists)
    requires n.cached.Some? && CacheSound(n) && IsCurrent(n, ls) && ClosedLists(ls)
    ensures Compute(ls, n) == Libraries(n.cached.value)
  {
    hide ClosedLists, Compute, IsReach;
    ReachWithin(n.seen, n, n.reach);
    AgreeOnReach(n.seen, ls, n, n.reach);
  }

  lemma ReachWithin(ls: Lists, n: Node, reach: set<Node>)
    requires IsReach(ls, n, reach)
    ensures n in ls && forall x :: x in reach ==> x in ls
  {
  }

  lemma SessionLists(all: set<Node>, touched: set<Node>, ls: Lists)
    requires InSession(all, touched, ls)
    ensures EffectiveLists(all) == ls
    ensures forall n :: n in all ==> !n.exploring && CacheSound(n)
  {
    hide ClosedLists, CacheSound, SortByName, IsCurrent;
  }

  method GetInSession(node: Node, ghost all: set<Node>, ghost touched: set<Node>, ghost ls: Lists, ghost reach: set<Node>)
    returns (r: Answer)
    requires InSession(all, touched, ls) && node in all && reach <= all && IsReach(ls, node, reach)
    modifies node`cached, node`seen, node`reach, all`exploring, node`directSorted, reach`directSorted
    ensures InSession(all, touched + reach + {node}, ls) && r == Compute(ls, node)
  {
    hide ClosedLists, Compute, IsReach, CacheSound, SortByName, IsCurrent, Node.Effective;
    SessionLists(all, touched, ls);
    if node.cached.Some? {
      CurrentAnswerIsFresh(node, ls);
    }
    r := GetLibdeps(node, all, reach);
    NewlyCurrent(node, ls, reach);
    forall n | n in all
      ensures NodeInSession(n, touched + reach + {node}, ls)
    {
      assert old(NodeInSession(n, touched, ls));
    }
  }

  lemma NewlyCurrent(n: Node, ls: Lists, reach: set<Node>)
    requires IsReach(ls, n, reach)
    ensures n.seen == ls && n.reach == reach ==> IsCurrent(n, ls)
  {
  }

  method AppendInSession(node: Node, prereqs: seq<Dependency>, ghost all: set<Node>, ghost touched: set<Node>, ghost ls: Lists)
    requires InSession(all, touched, ls) && node in all && (prereqs == [] || node !in touched)
    requires forall d :: d in prereqs ==> d.target in all
    modifies node`direct
    ensures node.Direct() == old(node.Direct()) + prereqs
    ensures InSession(all, touched, ls[node := SortByName(old(node.Direct()) + prereqs)])
  {
    hide Compute, IsReach, CacheSound, SortByName, IsCurrent, ClosedLists;
    ghost var ls' := ls[node := SortByName(node.Direct() + prereqs)];
    AppendCloses(ls, node, node.Direct(), prereqs);
    if prereqs == [] {
      assert node.Direct() + [] == node.Direct();
      assert ls' == ls;
    }
    AppendDirectLibdeps(node, prereqs);
    forall n | n in all
      ensures NodeInSession(n, touched, ls')
    {
      assert old(NodeInSession(n, touched, ls));
      StaysCurrent(n, ls, node, ls'[node]);
    }
  }

  /** An answer stays current when another library, which it does not reach, gets a new list. */
  lemma StaysCurrent(n: Node, ls: Lists, node: Node, ds: seq<Dependency>)
    requires node in ls
    ensures IsCurrent(n, ls) && n != node && node !in n.reach ==> IsCurrent(n, ls[node := ds])
  {
  }

  lemma AppendCloses(ls: Lists, node: Node, direct: seq<Dependency>, prereqs: seq<Dependency>)
    requires ClosedLists(ls) && node in ls && ls[node] == SortByName(direct) && forall d :: d in prereqs ==> d.target in ls
    ensures ClosedLists(ls[node := SortByName(direct + prereqs)])
  {
    hide Sort;
    SortKeeps(direct, (d: Dependency) => d.target.name, StringLe);
    SortKeeps(direct + prereqs, (d: Dependency) => d.target.name, StringLe);
    forall d | d in SortByName(direct + prereqs)
      ensures d.target in ls
    {
      MultisetMember(SortByName(direct + prereqs), d);
      MultisetMember(direct + prereqs, d);
      if d in direct {
        MultisetMember(direct, d);
        MultisetMember(SortByName(direct), d);
      }
    }
  }

  /** One operation of a run, with the direct dependencies `d` before it. */
  method PerformOne(op: Operation, ghost all: set<Node>, ghost touched: set<Node>, ghost d: Lists, ghost reach: set<Node>)
    returns (r: Option<Answer>)
    requires d == DirectLists(all) && InSession(all, touched, Sorted(d)) && op.node in all
    requires op.Get? ==> reach <= all && IsReach(Sorted(d), op.node, reach)
    requires op.Append? ==>
               (op.prereqs == [] || op.node !in touched) && forall x :: x in op.prereqs ==> x.target in all
    modifies all
    ensures DirectLists(all) == ListsAfter(d, [op])
    ensures InSession(all, if op.Get? then touched + reach + {op.node} else touched, Sorted(DirectLists(all)))
    ensures op.Get? ==> r.Some? && IsFreshAnswer(Sorted(d), op.node, r.value)
  {
    hide ClosedLists, Compute, IsReach, SortByName, NodeInSession, InSession;
    SessionIsClosed(all, touched, Sorted(d));
    assert Pop([op]) == [];
    match op
    case Get(n) =>
      var a := GetInSession(n, all, touched, Sorted(d), reach);
      assert DirectLists(all) == d;
      r := Some(a);
    case Append(n, prereqs) =>
      AppendInSession(n, prereqs, all, touched, Sorted(d));
      ghost var d' := d[n := d[n] + prereqs];
      assert DirectLists(all) == d';
      assert Sorted(d') == Sorted(d)[n := SortByName(d[n] + prereqs)];
      r := None;
  }

  /** Every operation is about libraries in `all`. */
  ghost predicate OperateOn(ops: seq<Operation>, all: set<Node>) {
    forall i :: 0 <= i < |ops| ==>
      ops[i].node in all && (ops[i].Append? ==> forall d :: d in ops[i].prereqs ==> d.target in all)
  }

  /**
   `reaches[i]` holds what the walk of operation `i` can reach at that time; whoever gets new
   dependencies was not walked before.
   */
  ghost predicate AppendsInTime(ls: Lists, ops: seq<Operation>, reaches: seq<set<Node>>) {
    && |reaches| == |ops|
    && (forall i :: 0 <= i < |ops| && ops[i].Get? ==>
          reaches[i] <= ls.Keys && IsReach(Sorted(ListsAfter(ls, ops[..i])), ops[i].node, reaches[i]))
    && (forall i, j :: 0 <= i < j < |ops| && ops[i].Get? && ops[j].Append? && ops[j].prereqs != [] ==>
          ops[j].node != ops[i].node && ops[j].node !in reaches[i])
  }

  ghost predicate IsFreshAnswer(ls: Lists, node: Node, r: Answer) {
    ClosedLists(ls) && node in ls && r == Compute(ls, node)
  }

  /**
   Any run of both operations in which appends come in time: every answer, whether it was cached or
   not, is what a computation from the direct dependencies at that time gives.
   */
  method Perform(ops: seq<Operation>, ghost all: set<Node>, ghost reaches: seq<set<Node>>)
    returns (answers: seq<Option<Answer>>)
    requires forall n :: n in all ==> n.HasNoCopy() && n.cached.None? && !n.exploring
    requires ClosedLists(Sorted(DirectLists(all))) && OperateOn(ops, all)
    requires AppendsInTime(DirectLists(all), ops, reaches)
    modifies all
    ensures DirectLists(all) == ListsAfter(old(DirectLists(all)), ops)
    ensures |answers| == |ops|
    ensures forall i :: 0 <= i < |ops| && ops[i].Get? ==>
              answers[i].Some? &&
              IsFreshAnswer(Sorted(ListsAfter(old(DirectLists(all)), ops[..i])), ops[i].node, answers[i].value)
  {
    hide ClosedLists, Compute, IsReach, SortByName, NodeInSession, Node.Direct, AppendsInTime, InSession, ListsAfter;
    ghost var start := DirectLists(all);
    ghost var touched: set<Node> := {};
    SessionBegins(all);
    answers := [];
    ListsBegin(start, ops);
    for i := 0 to |ops|
      invariant |answers| == i
      invariant DirectLists(all) == ListsAfter(start, ops[..i])
      invariant InSession(all, touched, Sorted(ListsAfter(start, ops[..i])))
      invariant forall x :: x in touched ==> WalkedBefore(ops, reaches, i, x)
      invariant forall j :: 0 <= j < i && ops[j].Get? ==>
                  answers[j].Some? && IsFreshAnswer(Sorted(ListsAfter(start, ops[..j])), ops[j].node, answers[j].value)
    {
      ListsNext(start, ops, i);
      InTimeAt(start, ops, reaches, i, touched);
      var r := PerformOne(ops[i], all, touched, ListsAfter(start, ops[..i]), reaches[i]);
      answers := answers + [r];
      if ops[i].Get? {
        touched := touched + reaches[i] + {ops[i].node};
      }
    }
    assert ops[..|ops|] == ops;
  }

  /** A library that some walk before operation `i` may have met. */
  ghost predicate WalkedBefore(ops: seq<Operation>, reaches: seq<set<Node>>, i: nat, x: Node) {
    i <= |ops| == |reaches| && exists j :: 0 <= j < i && ops[j].Get? && (x == ops[j].node || x in reaches[j])
  }

  lemma SessionBegins(all: set<Node>)
    requires forall n :: n in all ==> n.HasNoCopy() && n.cached.None? && !n.exploring
    requires ClosedLists(Sorted(DirectLists(all)))
    ensures InSession(all, {}, Sorted(DirectLists(all)))
  {
    hide SortByName, Compute, IsReach;
  }

  lemma SessionIsClosed(all: set<Node>, touched: set<Node>, ls: Lists)
    requires InSession(all, touched, ls)
    ensures ls.Keys == all && ClosedLists(ls)
  {
  }

  lemma ListsBegin(ls: Lists, ops: seq<Operation>)
    ensures ListsAfter(ls, ops[..0]) == ls
  {
  }

  lemma ListsNext(ls: Lists, ops: seq<Operation>, i: nat)
    requires i < |ops|
    ensures ListsAfter(ls, ops[..i + 1]) == ListsAfter(ListsAfter(ls, ops[..i]), [ops[i]])
  {
    assert Pop(ops[..i + 1]) == ops[..i];
    assert Pop([ops[i]]) == [];
  }

  lemma InTimeAt(ls: Lists, ops: seq<Operation>, reaches: seq<set<Node>>, i: nat, touched: set<Node>)
    requires AppendsInTime(ls, ops, reaches) && i < |ops|
    requires forall x :: x in touched ==> WalkedBefore(ops, reaches, i, x)
    ensures |reaches| == |ops|
    ensures ops[i].Get? ==>
              reaches[i] <= ls.Keys && IsReach(Sorted(ListsAfter(ls, ops[..i])), ops[i].node, reaches[i])
    ensures ops[i].Append? && ops[i].prereqs != [] ==> ops[i].node !in touched
    ensures forall x :: WalkedBefore(ops, reaches, i, x) ==> WalkedBefore(ops, reaches, i + 1, x)
    ensures ops[i].Get? ==>
              forall x :: x in reaches[i] || x == ops[i].node ==> WalkedBefore(ops, reaches, i + 1, x)
  {
    hide IsReach, ListsAfter;
    if ops[i].Append? && ops[i].node in touched {
      assert WalkedBefore(ops, reaches, i, ops[i].node);
    }
  }

  // ----- An append that comes too late -----

  lemma OrderMeansLibraries(ls: Lists, node: Node, order: seq<Node>)
    requires ClosedLists(ls) && node in ls && PostOrder(LinkGraph(ls), order) && NoDuplicates(order)
    requires forall n :: n in ls ==> n in order
    ensures Compute(ls, node).Libraries?
  {
    hide ClosedLists, Compute, LinkGraph, PostOrder, Targets;
    LinkGraphAt(ls, node, Interface);
    if Compute(ls, node).CycleError? {
      var p := CycleErrorIsReal(ls, node);
      var t := Compute(ls, node).trace;
      assert Edge(LinkGraph(ls), t[0], t[0 + 1]);
      PostOrderHasNoCycle(LinkGraph(ls), order, t[..|t| - 1]);
      assert false;
    }
  }

  /** A library that nothing depends on is in no answer. */
  lemma UnusedIsNotListed(ls: Lists, node: Node, z: Node)
    requires ClosedLists(ls) && node in ls && Compute(ls, node).Libraries?
    requires forall n, d :: n in ls && d in ls[n] ==> d.target != z
    ensures z !in Compute(ls, node).list
  {
    hide ClosedLists, Compute;
    if z in Compute(ls, node).list {
      var p := LibrariesAreReachable(ls, node, z);
      if |p| == 1 {
        TargetsMembers(ls[node], Interface);
      } else {
        assert Edge(LinkGraph(ls), p[|p| - 2], p[|p| - 2 + 1]);
        TargetsMembers(ls[p[|p| - 2]], Private);
      }
      assert false;
    }
  }

  /** A library two public dependencies away is in the answer, if there is one. */
  lemma TwoStepsAreListed(ls: Lists, m: Node, n: Node, z: Node)
    requires ClosedLists(ls) && m in ls && n in ls && Compute(ls, m).Libraries?
    requires Dependency(n, Public) in ls[m] && Dependency(z, Public) in ls[n]
    ensures z in Compute(ls, m).list
  {
    hide ClosedLists, Compute;
    TargetsMembers(ls[m], Interface);
    TargetsMembers(ls[n], Private);
    LibrariesInLinkOrder(ls, m);
    assert WalkFrom(LinkGraph(ls), Targets(ls[m], Interface), [n, z], z);
  }

  /**
   Why appends must come in time. `n` is asked for its libraries, then gets a dependency on `z`, and
   then `m`, which depends on `n`, is asked for the first time: its answer does not hold `z`, though
   a computation from the direct dependencies would give `z`, if it gives libraries at all.
   */
  method LateAppendIsHidden() returns (m: Node, z: Node, late: Answer, ghost all: set<Node>)
    ensures m in all && ClosedLists(FreshLists(all))
    ensures late.Libraries? && z !in late.list
    ensures Compute(FreshLists(all), m).Libraries? ==> z in Compute(FreshLists(all), m).list
    ensures late != Compute(FreshLists(all), m)
  {
    hide Compute, SortByName, ClosedLists;
    var y := new Node("y");
    z := new Node("z");
    var n := new Node("n");
    m := new Node("m");
    AppendDirectLibdeps(n, [Dependency(y, Public)]);
    AppendDirectLibdeps(m, [Dependency(n, Public)]);
    all := {y, z, n, m};
    late := AskAppendAsk(y, z, n, m, all);
  }

  method AskAppendAsk(y: Node, z: Node, n: Node, m: Node, ghost all: set<Node>) returns (late: Answer)
    requires y != z && y != n && y != m && z != n && z != m && n != m && all == {y, z, n, m}
    requires y.Direct() == z.Direct() == [] && n.Direct() == [Dependency(y, Public)] && m.Direct() == [Dependency(n, Public)]
    requires forall x :: x in all ==> x.HasNoCopy() && x.cached.None? && !x.exploring
    modifies all
    ensures ClosedLists(FreshLists(all))
    ensures late.Libraries? && z !in late.list
    ensures Compute(FreshLists(all), m).Libraries? ==> z in Compute(FreshLists(all), m).list
  {
    hide Compute, SortByName, ClosedLists, LinkClosed;
    ghost var ls := map[y := [], z := [], n := [Dependency(y, Public)], m := [Dependency(n, Public)]];
    SortNone();
    SortOne(Dependency(y, Public));
    SortOne(Dependency(n, Public));
    assert EffectiveLists(all) == ls;
    HiddenAnswer(ls, y, z, n, m);
    var early := GetLibdeps(n, all, {y});
    assert EffectiveLists(all)[n] == n.Effective();
    late := AppendAsk(y, z, n, m, all, ls);
    NoLongerHidden(ls, FreshLists(all), y, z, n, m);
  }

  /** The second half: `n` has its sorted copy already. */
  method AppendAsk(y: Node, z: Node, n: Node, m: Node, ghost all: set<Node>, ghost ls: Lists) returns (late: Answer)
    requires y != z && y != n && y != m && z != n && z != m && n != m && all == {y, z, n, m}
    requires y.Direct() == z.Direct() == [] && n.Direct() == [Dependency(y, Public)] && m.Direct() == [Dependency(n, Public)]
    requires EffectiveLists(all) == ls && ls.Keys == all && ClosedLists(ls) && IsReach(ls, m, {n, y})
    requires ls == map[y := [], z := [], n := [Dependency(y, Public)], m := [Dependency(n, Public)]]
    requires n.directSorted == Some([Dependency(y, Public)]) && m.cached.None?
    requires forall x :: x in all ==> !x.exploring && CacheSound(x)
    modifies all
    ensures late == Compute(ls, m)
    ensures FreshLists(all) == ls[n := SortByName([Dependency(y, Public), Dependency(z, Public)])]
  {
    hide Compute, SortByName, ClosedLists, IsReach, CacheSound;
    SortNone();
    SortOne(Dependency(n, Public));
    AppendDirectLibdeps(n, [Dependency(z, Public)]);
    assert EffectiveLists(all) == ls;
    late := GetLibdeps(m, all, {n, y});
    assert n.Direct() == [Dependency(y, Public), Dependency(z, Public)];
  }

  lemma NoLongerHidden(ls: Lists, now: Lists, y: Node, z: Node, n: Node, m: Node)
    requires y != z && y != n && y != m && z != n && z != m && n != m
    requires ls == map[y := [], z := [], n := [Dependency(y, Public)], m := [Dependency(n, Public)]]
    requires now == ls[n := SortByName([Dependency(y, Public), Dependency(z, Public)])]
    ensures ClosedLists(now)
    ensures Compute(now, m).Libraries? ==> z in Compute(now, m).list
  {
    hide Compute, SortByName;
    var ds := [Dependency(y, Public), Dependency(z, Public)];
    forall d
      ensures d in SortByName(ds) <==> d in ds
    {
      SortMembers(ds, d);
    }
    assert ds[1] in ds;
    if Compute(now, m).Libraries? {
      TwoStepsAreListed(now, m, n, z);
    }
  }

  lemma HiddenAnswer(ls: Lists, y: Node, z: Node, n: Node, m: Node)
    requires y != z && y != n && y != m && z != n && z != m && n != m
    requires ls == map[y := [], z := [], n := [Dependency(y, Public)], m := [Dependency(n, Public)]]
    ensures ClosedLists(ls) && Compute(ls, m).Libraries? && z !in Compute(ls, m).list
    ensures IsReach(ls, n, {y}) && IsReach(ls, m, {n, y})
  {
    hide Compute, LinkGraph;
    ChainIsOrdered(ls, y, z, n, m);
    OrderMeansLibraries(ls, m, [y, z, n, m]);
    UnusedIsNotListed(ls, m, z);
  }

  lemma ChainIsOrdered(ls: Lists, y: Node, z: Node, n: Node, m: Node)
    requires y != z && y != n && y != m && z != n && z != m && n != m
    requires ls == map[y := [], z := [], n := [Dependency(y, Public)], m := [Dependency(n, Public)]]
    ensures PostOrder(LinkGraph(ls), [y, z, n, m])
  {
    var g, order := LinkGraph(ls), [y, z, n, m];
    assert g[n] == [y] + Targets([Dependency(y, Public)][1..], Private) == [y];
    assert g[m] == [n] + Targets([Dependency(n, Public)][1..], Private) == [n];
    assert order[..2] == [y, z] && order[..3] == [y, z, n];
  }

  lemma SortNone()
    ensures SortByName([]) == []
  {
    SortKeeps([], (d: Dependency) => d.target.name, StringLe);
  }

  lemma SortMembers(ds: seq<Dependency>, d: Dependency)
    ensures d in SortByName(ds) <==> d in ds
    ensures |SortByName(ds)| == |ds|
  {
    hide Sort;
    SortKeeps(ds, (d: Dependency) => d.target.name, StringLe);
    MultisetMember(SortByName(ds), d);
    MultisetMember(ds, d);
  }

  lemma SortOne(a: Dependency)
    ensures SortByName([a]) == [a]
  {
    hide SortByName;
    SortMembers([a], a);
  }

  // ----- The order of appending -----

  lemma {:induction false} TargetsConcat(a: seq<Dependency>, b: seq<Dependency>, skip: DependencyType)
    ensures Targets(a + b, skip) == Targets(a, skip) + Targets(b, skip)
  {
    if a == [] {
      assert a + b == b;
    } else {
      assert (a + b)[1..] == a[1..] + b;
      TargetsConcat(a[1..], b, skip);
    }
  }

  lemma TargetsWithout(s: seq<Dependency>, j: nat, skip: DependencyType)
    requires j < |s|
    ensures multiset(Targets(s, skip)) ==
            multiset(Targets(RemoveAt(s, j), skip))
            + if s[j].kind != skip then multiset{s[j].target} else multiset{}
  {
    assert s == s[..j] + ([s[j]] + s[j + 1..]);
    TargetsConcat(s[..j], [s[j]] + s[j + 1..], skip);
    TargetsConcat([s[j]], s[j + 1..], skip);
    TargetsConcat(s[..j], s[j + 1..], skip);
  }

  lemma {:induction false} TargetsOfPermutation(a: seq<Dependency>, b: seq<Dependency>, skip: DependencyType)
    requires multiset(a) == multiset(b)
    ensures multiset(Targets(a, skip)) == multiset(Targets(b, skip))
    decreases |a|
  {
    if a == [] {
      assert |multiset(b)| == 0;
    } else {
      hide Targets;
      var j := FindInPermutation(a, b);
      TargetsOfPermutation(RemoveAt(a, 0), RemoveAt(b, j), skip);
      TargetsWithout(a, 0, skip);
      TargetsWithout(b, j, skip);
    }
  }

  lemma {:induction false} TargetsSorted(ds: seq<Dependency>, skip: DependencyType)
    requires SortedBy(ds, (d: Dependency) => d.target.name, StringLe)
    ensures SortedBy(Targets(ds, skip), (n: Node) => n.name, StringLe)
  {
    if ds != [] {
      var rest := Targets(ds[1..], skip);
      TargetsSorted(ds[1..], skip);
      TargetsMembers(ds[1..], skip);
      forall k | 0 <= k < |rest|
        ensures StringLe(ds[0].target.name, rest[k].name)
      {
        assert rest[k] in rest;
        var d :| d in ds[1..] && d.target == rest[k];
        var i :| 0 <= i < |ds[1..]| && ds[1..][i] == d;
        assert ds[i + 1] == d;
      }
    }
  }

  /** Names tell the targets apart. */
  ghost predicate NamesIdentify(ds: seq<Dependency>) {
    forall a, b :: a in ds && b in ds && a.target.name == b.target.name ==> a.target == b.target
  }

  lemma SortedTargetsOfPermutation(a: seq<Dependency>, b: seq<Dependency>, skip: DependencyType)
    requires multiset(a) == multiset(b) && NamesIdentify(a)
    ensures Targets(SortByName(a), skip) == Targets(SortByName(b), skip)
  {
    hide Targets, SortedBy, TotalOrder, StringLe, Sort;
    var key := (d: Dependency) => d.target.name;
    var name := (n: Node) => n.name;
    StringLeIsTotalOrder();
    SortKeeps(a, key, StringLe);
    SortKeeps(b, key, StringLe);
    SortSorts(a, key, StringLe);
    SortSorts(b, key, StringLe);
    var s, t := Targets(SortByName(a), skip), Targets(SortByName(b), skip);
    TargetsOfPermutation(SortByName(a), SortByName(b), skip);
    TargetsSorted(SortByName(a), skip);
    TargetsSorted(SortByName(b), skip);
    TargetsMembers(SortByName(a), skip);
    forall x, y | x in s && y in s && name(x) == name(y)
      ensures x == y
    {
      var d :| d in SortByName(a) && d.target == x;
      var e :| e in SortByName(a) && e.target == y;
      assert d in multiset(a) && e in multiset(a);
    }
    SortedUnique(s, t, name, StringLe);
  }

  /** With distinct names the answer does not depend on the order in which dependencies were appended. */
  lemma AppendOrderDoesNotMatter(a: Lists, b: Lists, node: Node)
    requires a.Keys == b.Keys && node in a
    requires forall n :: n in a ==> multiset(a[n]) == multiset(b[n]) && NamesIdentify(a[n])
    requires ClosedLists(Sorted(a)) && ClosedLists(Sorted(b))
    ensures Compute(Sorted(a), node) == Compute(Sorted(b), node)
  {
    hide Targets, SortByName, ClosedLists, VisitAll;
    forall n, skip | n in a
      ensures Targets(Sorted(a)[n], skip) == Targets(Sorted(b)[n], skip)
    {
      SortedTargetsOfPermutation(a[n], b[n], skip);
    }
    assert LinkGraph(Sorted(a)) == LinkGraph(Sorted(b));
  }
}
