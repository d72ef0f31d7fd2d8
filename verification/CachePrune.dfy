/**
 `prune_cache` of buildscripts/scons_cache_prune.py: least recently used items are removed from the
 build cache until it is small enough. Which renames and removals fail is an input.
 */
module CachePrune {
  import opened Sequences
  import opened Sorting

  datatype Item = Item(path: string, time: real, size: nat)

  /** What happens to an item that is to be removed. */
  datatype Attempt = RenameFails | RemovalFails | Removed

  function TotalSize(items: seq<Item>): nat {
    if items == [] then 0 else TotalSize(items[..|items| - 1]) + items[|items| - 1].size
  }

  /** The tracked size after the items `popped` have been tried. */
  function SizeAfter(total: int, popped: seq<Item>, attempt: Item -> Attempt): int {
    if popped == [] then total
    else
      var item := popped[|popped| - 1];
      SizeAfter(total, popped[..|popped| - 1], attempt) - if attempt(item) == Removed then item.size else 0
  }

  /** The items of `popped` whose removal did not succeed; after a failed rename the file may be gone all the same. */
  function Surviving(popped: seq<Item>, attempt: Item -> Attempt): seq<Item> {
    if popped == [] then []
    else
      var rest, item := Surviving(popped[..|popped| - 1], attempt), popped[|popped| - 1];
      if attempt(item) == Removed then rest else rest + [item]
  }

  predicate NotOlder(a: real, b: real) {
    a >= b
  }

  /** Most recently used first. */
  function ByTime(items: seq<Item>): seq<Item> {
    Sort(items, (i: Item) => i.time, NotOlder)
  }

  lemma {:induction false} TotalConcat(a: seq<Item>, b: seq<Item>)
    ensures TotalSize(a + b) == TotalSize(a) + TotalSize(b)
  {
    if b == [] {
      assert a + b == a;
    } else {
      var r, x := b[..|b| - 1], b[|b| - 1];
      TotalConcat(a, r);
      assert (a + b)[..|a + b| - 1] == a + r;
    }
  }

  lemma TotalWithout(s: seq<Item>, j: nat)
    requires j < |s|
    ensures TotalSize(s) == TotalSize(RemoveAt(s, j)) + s[j].size
  {
    hide TotalSize;
    var x := s[j];
    assert s == s[..j] + ([x] + s[j + 1..]);
    TotalConcat(s[..j], [x] + s[j + 1..]);
    TotalConcat([x], s[j + 1..]);
    TotalConcat(s[..j], s[j + 1..]);
    TotalOne(x);
  }

  lemma TotalOne(x: Item)
    ensures TotalSize([x]) == x.size
  {
    assert [x][..0] == [];
  }

  lemma {:induction false} TotalPermutation(a: seq<Item>, b: seq<Item>)
    requires multiset(a) == multiset(b)
    ensures TotalSize(a) == TotalSize(b)
    decreases |a|
  {
    if a == [] {
      assert |multiset(b)| == 0;
    } else {
      hide TotalSize;
      var j := FindInPermutation(a, b);
      TotalPermutation(RemoveAt(a, 0), RemoveAt(b, j));
      TotalWithout(a, 0);
      TotalWithout(b, j);
    }
  }

  /** The tracked size is what was there less what was removed. */
  lemma {:induction false} SizeIsConserved(total: int, popped: seq<Item>, attempt: Item -> Attempt)
    ensures SizeAfter(total, popped, attempt) == total - TotalSize(popped) + TotalSize(Surviving(popped, attempt))
  {
    if popped != [] {
      var r, x := popped[..|popped| - 1], popped[|popped| - 1];
      SizeIsConserved(total, r, attempt);
      if attempt(x) != Removed {
        var s := Surviving(r, attempt);
        assert (s + [x])[..|s + [x]| - 1] == s;
      }
    }
  }

  lemma NotOlderIsTotalOrder()
    ensures TotalOrder(NotOlder)
  {
  }

  /** The trimming loop: items are popped from the end of the sorted list. */
  method Trim(sorted: seq<Item>, total: int, target: real, attempt: Item -> Attempt)
    returns (ok: bool, popped: seq<Item>, left: seq<Item>, size: int)
    ensures sorted == left + Reverse(popped)
    ensures multiset(popped) + multiset(left) == multiset(sorted)
    ensures size == SizeAfter(total, popped, attempt)
    ensures ok <==> size as real < target
    ensures !ok ==> left == []
    ensures forall k :: 0 <= k < |popped| ==> SizeAfter(total, popped[..k], attempt) as real >= target
  {
    hide Reverse;
    popped, left, size := [], sorted, total;
    assert sorted == left + Reverse(popped);
    while size as real >= target
      invariant sorted == left + Reverse(popped)
      invariant multiset(popped) + multiset(left) == multiset(sorted)
      invariant size == SizeAfter(total, popped, attempt)
      invariant forall k :: 0 <= k < |popped| ==> SizeAfter(total, popped[..k], attempt) as real >= target
      decreases |left|
    {
      if left == [] {
        return false, popped, left, size;
      }
      var item := left[|left| - 1];
      ghost var before := popped;
      PopStep(left, popped);
      left := left[..|left| - 1];
      popped := popped + [item];
      assert popped[..|before|] == before;
      assert forall k :: 0 <= k < |before| ==> popped[..k] == before[..k];
      if attempt(item) == Removed {
        size := size - item.size;
      }
    }
    ok := true;
  }

  /**
   Returns the value of the tool, the items tried in the order they were tried, the items left
   untouched and the tracked size. When `ok` is false the whole cache was removed.
   */
  method PruneCache(contents: seq<Item>, cacheSize: real, ratio: real, attempt: Item -> Attempt)
    returns (ok: bool, popped: seq<Item>, left: seq<Item>, size: int)
    // No item is lost, and no item tried was used more recently than one left untouched.
    ensures multiset(popped) + multiset(left) == multiset(contents)
    ensures forall p, l :: p in popped && l in left ==> p.time <= l.time
    // The tracked size counts the items left and those whose removal did not succeed.
    ensures size == SizeAfter(TotalSize(contents), popped, attempt)
    ensures size == TotalSize(left) + TotalSize(Surviving(popped, attempt))
    // Within the quota nothing happens.
    ensures TotalSize(contents) as real < cacheSize ==> ok && popped == []
    // Otherwise as few items as possible are tried until the size is below the target.
    ensures TotalSize(contents) as real >= cacheSize ==>
              && (ok <==> size as real < cacheSize * ratio)
              && (!ok ==> left == [])
              && forall k :: 0 <= k < |popped| ==>
                   SizeAfter(TotalSize(contents), popped[..k], attempt) as real >= cacheSize * ratio
  {
    hide TotalSize, Surviving, Sort, TotalOrder, SortedBy;
    var total := TotalSize(contents);
    if total as real < cacheSize {
      Accounts(contents, [], contents, attempt);
      return true, [], contents, total;
    }
    var sorted := ByTime(contents);
    NotOlderIsTotalOrder();
    SortSorts(contents, (i: Item) => i.time, NotOlder);
    SortKeeps(contents, (i: Item) => i.time, NotOlder);
    ok, popped, left, size := Trim(sorted, total, cacheSize * ratio, attempt);
    Accounts(contents, popped, left, attempt);
    OldestFirst(sorted, left, popped);
  }

  lemma PopStep(left: seq<Item>, popped: seq<Item>)
    requires left != []
    ensures var r, x := left[..|left| - 1], left[|left| - 1];
            && r + Reverse(popped + [x]) == left + Reverse(popped)
            && multiset(popped + [x]) + multiset(r) == multiset(popped) + multiset(left)
  {
    var r, x := left[..|left| - 1], left[|left| - 1];
    assert left == r + [x];
    assert Reverse(popped + [x]) == [x] + Reverse(popped);
  }

  lemma Accounts(contents: seq<Item>, popped: seq<Item>, left: seq<Item>, attempt: Item -> Attempt)
    requires multiset(popped) + multiset(left) == multiset(contents)
    ensures SizeAfter(TotalSize(contents), popped, attempt) == TotalSize(left) + TotalSize(Surviving(popped, attempt))
  {
    SizeIsConserved(TotalSize(contents), popped, attempt);
    TotalPermutation(contents, popped + left);
    TotalConcat(popped, left);
  }

  lemma OldestFirst(sorted: seq<Item>, left: seq<Item>, popped: seq<Item>)
    requires SortedBy(sorted, (i: Item) => i.time, NotOlder) && sorted == left + Reverse(popped)
    ensures forall p, l :: p in popped && l in left ==> p.time <= l.time
  {
    forall p, l | p in popped && l in left
      ensures p.time <= l.time
    {
      ReverseMembers(popped);
      var i :| 0 <= i < |left| && left[i] == l;
      var j :| 0 <= j < |Reverse(popped)| && Reverse(popped)[j] == p;
      assert sorted[i] == l && sorted[|left| + j] == p;
    }
  }
}
