/**
 Directed graphs as successor lists, and the certificate both searches of the repository leave
 behind: an order in which every node comes after all its successors.
 */
module Digraph {
  import opened Sequences

  type Graph<V> = map<V, seq<V>>

  /** Every successor is a node. */
  ghost predicate Closed<V>(g: Graph<V>) {
    forall n, m :: n in g && m in g[n] ==> m in g
  }

  predicate Edge<V(==)>(g: Graph<V>, a: V, b: V) {
    a in g && b in g[a]
  }

  ghost predicate IsWalk<V>(g: Graph<V>, p: seq<V>) {
    |p| > 0 && forall i :: 0 <= i < |p| - 1 ==> Edge(g, p[i], p[i + 1])
  }

  ghost predicate IsWalkBetween<V>(g: Graph<V>, p: seq<V>, a: V, b: V) {
    IsWalk(g, p) && p[0] == a && p[|p| - 1] == b
  }

  /** The nodes of `c`, in order and from the last back to the first, are joined by edges. */
  ghost predicate IsCycle<V>(g: Graph<V>, c: seq<V>) {
    IsWalk(g, c) && Edge(g, c[|c| - 1], c[0])
  }

  /** Each node of `order` comes after all its successors. */
  ghost predicate PostOrder<V>(g: Graph<V>, order: seq<V>) {
    forall i :: 0 <= i < |order| ==> order[i] in g && forall m :: m in g[order[i]] ==> m in order[..i]
  }

  /** Walks go down in such an order. */
  lemma {:induction false} WalkDescends<V>(g: Graph<V>, order: seq<V>, p: seq<V>, i: nat) returns (j: nat)
    requires PostOrder(g, order) && IsWalk(g, p) && i < |order| && p[0] == order[i]
    ensures j <= i && order[j] == p[|p| - 1] && (|p| > 1 ==> j < i)
    decreases |p|
  {
    if |p| == 1 {
      j := i;
    } else {
      assert Edge(g, p[0], p[1]);
      assert p[1] in order[..i];
      var k: nat :| k < i && order[..i][k] == p[1];
      var t := p[1..];
      assert forall a :: 0 <= a < |t| - 1 ==> Edge(g, t[a], t[a + 1]) by {
        forall a | 0 <= a < |t| - 1
          ensures Edge(g, t[a], t[a + 1])
        {
          assert Edge(g, p[a + 1], p[a + 1 + 1]);
        }
      }
      j := WalkDescends(g, order, t, k);
    }
  }

  /** A node of such an order lies on no cycle. */
  lemma PostOrderHasNoCycle<V>(g: Graph<V>, order: seq<V>, c: seq<V>)
    requires PostOrder(g, order) && NoDuplicates(order) && IsCycle(g, c)
    ensures c[0] !in order
  {
    if c[0] in order {
      var i: nat :| i < |order| && order[i] == c[0];
      var p := c + [c[0]];
      var j := WalkDescends(g, order, p, i);
      assert false;
    }
  }

  /** Everything reachable from a node of such an order is in it. */
  lemma PostOrderIsClosed<V>(g: Graph<V>, order: seq<V>, p: seq<V>)
    requires PostOrder(g, order) && IsWalk(g, p) && p[0] in order
    ensures p[|p| - 1] in order
  {
    var i: nat :| i < |order| && order[i] == p[0];
    var j := WalkDescends(g, order, p, i);
  }

  lemma PostOrderPush<V>(g: Graph<V>, order: seq<V>, n: V)
    requires PostOrder(g, order) && n in g && forall m :: m in g[n] ==> m in order
    ensures PostOrder(g, order + [n])
  {
    var o := order + [n];
    forall i | 0 <= i < |o|
      ensures o[i] in g && forall m :: m in g[o[i]] ==> m in o[..i]
    {
      assert i < |order| ==> o[..i] == order[..i];
      assert o[..|order|] == order;
    }
  }
}
