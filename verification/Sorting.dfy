/** Stable sorting by a key, and the lexicographic order of strings. */
module Sorting {
  import opened Sequences

  ghost predicate TotalOrder<K(!new)>(le: (K, K) -> bool) {
    && (forall x, y :: le(x, y) || le(y, x))
    && (forall x, y :: le(x, y) && le(y, x) ==> x == y)
    && (forall x, y, z :: le(x, y) && le(y, z) ==> le(x, z))
  }

  ghost predicate SortedBy<T, K(!new)>(s: seq<T>, key: T -> K, le: (K, K) -> bool) {
    forall i, j :: 0 <= i < j < |s| ==> le(key(s[i]), key(s[j]))
  }

  /** `x` goes behind the elements whose key is not greater. */
  function Insert<T, K>(x: T, s: seq<T>, key: T -> K, le: (K, K) -> bool): seq<T> {
    if s == [] then [x]
    else if le(key(s[|s| - 1]), key(x)) then s + [x]
    else Insert(x, s[..|s| - 1], key, le) + [s[|s| - 1]]
  }

  function Sort<T, K>(s: seq<T>, key: T -> K, le: (K, K) -> bool): seq<T> {
    if s == [] then [] else Insert(s[|s| - 1], Sort(s[..|s| - 1], key, le), key, le)
  }

  lemma {:induction false} InsertKeeps<T, K>(x: T, s: seq<T>, key: T -> K, le: (K, K) -> bool)
    ensures multiset(Insert(x, s, key, le)) == multiset(s) + multiset{x}
  {
    if s != [] {
      var r := s[..|s| - 1];
      assert s == r + [s[|s| - 1]];
      if !le(key(s[|s| - 1]), key(x)) {
        InsertKeeps(x, r, key, le);
      }
    }
  }

  lemma {:induction false} SortKeeps<T, K>(s: seq<T>, key: T -> K, le: (K, K) -> bool)
    ensures multiset(Sort(s, key, le)) == multiset(s)
    ensures |Sort(s, key, le)| == |s|
  {
    if s != [] {
      var r := s[..|s| - 1];
      assert s == r + [s[|s| - 1]];
      SortKeeps(r, key, le);
      InsertKeeps(s[|s| - 1], Sort(r, key, le), key, le);
    }
    assert |multiset(Sort(s, key, le))| == |multiset(s)|;
  }

  lemma {:induction false} InsertSorts<T, K(!new)>(x: T, s: seq<T>, key: T -> K, le: (K, K) -> bool)
    requires TotalOrder(le) && SortedBy(s, key, le)
    ensures SortedBy(Insert(x, s, key, le), key, le)
  {
    if s != [] && !le(key(s[|s| - 1]), key(x)) {
      var r, l := s[..|s| - 1], s[|s| - 1];
      InsertSorts(x, r, key, le);
      var t := Insert(x, r, key, le);
      InsertKeeps(x, r, key, le);
      forall i | 0 <= i < |t|
        ensures le(key(t[i]), key(l))
      {
        assert t[i] in multiset(t);
        if t[i] != x {
          assert t[i] in r;
        }
      }
    }
  }

  lemma {:induction false} SortSorts<T, K(!new)>(s: seq<T>, key: T -> K, le: (K, K) -> bool)
    requires TotalOrder(le)
    ensures SortedBy(Sort(s, key, le), key, le)
  {
    if s != [] {
      SortSorts(s[..|s| - 1], key, le);
      InsertSorts(s[|s| - 1], Sort(s[..|s| - 1], key, le), key, le);
    }
  }

  /** Sorted sequences with the same elements are the same when keys identify elements. */
  lemma {:induction false} SortedUnique<T, K(!new)>(a: seq<T>, b: seq<T>, key: T -> K, le: (K, K) -> bool)
    requires TotalOrder(le) && SortedBy(a, key, le) && SortedBy(b, key, le)
    requires multiset(a) == multiset(b)
    requires KeysIdentify(a, key)
    ensures a == b
  {
    hide TotalOrder, SortedBy, KeysIdentify;
    assert |a| == |multiset(a)| == |multiset(b)| == |b|;
    if a != [] {
      var x, y := a[|a| - 1], b[|b| - 1];
      SameLast(a, b, key, le);
      WithoutLast(a);
      WithoutLast(b);
      SortedPrefix(a, key, le);
      SortedPrefix(b, key, le);
      PrefixIdentify(a, key);
      SortedUnique(a[..|a| - 1], b[..|b| - 1], key, le);
      assert a == a[..|a| - 1] + [x] && b == b[..|b| - 1] + [y];
    }
  }

  /** No two elements share a key. */
  ghost predicate KeysIdentify<T, K>(s: seq<T>, key: T -> K) {
    forall x, y :: x in s && y in s && key(x) == key(y) ==> x == y
  }

  lemma PrefixIdentify<T, K>(s: seq<T>, key: T -> K)
    requires KeysIdentify(s, key) && s != []
    ensures KeysIdentify(s[..|s| - 1], key)
  {
    assert forall z :: z in s[..|s| - 1] ==> z in s;
  }

  lemma SameLast<T, K(!new)>(a: seq<T>, b: seq<T>, key: T -> K, le: (K, K) -> bool)
    requires TotalOrder(le) && SortedBy(a, key, le) && SortedBy(b, key, le)
    requires multiset(a) == multiset(b) && a != [] && b != [] && KeysIdentify(a, key)
    ensures a[|a| - 1] == b[|b| - 1]
  {
    hide TotalOrder, SortedBy;
    var x, y := a[|a| - 1], b[|b| - 1];
    MultisetMember(a, y);
    MultisetMember(b, x);
    LastIsGreatest(a, y, key, le);
    LastIsGreatest(b, x, key, le);
    Antisymmetric(key(x), key(y), le);
  }

  lemma WithoutLast<T>(s: seq<T>)
    requires s != []
    ensures multiset(s[..|s| - 1]) == multiset(s) - multiset{s[|s| - 1]}
  {
    assert s == s[..|s| - 1] + [s[|s| - 1]];
  }

  lemma LastIsGreatest<T, K(!new)>(s: seq<T>, x: T, key: T -> K, le: (K, K) -> bool)
    requires TotalOrder(le) && SortedBy(s, key, le) && x in s
    ensures le(key(x), key(s[|s| - 1]))
  {
    var i :| 0 <= i < |s| && s[i] == x;
  }

  lemma SortedPrefix<T, K(!new)>(s: seq<T>, key: T -> K, le: (K, K) -> bool)
    requires SortedBy(s, key, le) && s != []
    ensures SortedBy(s[..|s| - 1], key, le)
  {
  }

  lemma Antisymmetric<K(!new)>(x: K, y: K, le: (K, K) -> bool)
    requires TotalOrder(le) && le(x, y) && le(y, x)
    ensures x == y
  {
  }

  // ----- Stability -----

  /** The elements with the key `k`, in order. */
  function Having<T, K(==)>(s: seq<T>, key: T -> K, k: K): seq<T> {
    if s == [] then [] else Having(s[..|s| - 1], key, k) + if key(s[|s| - 1]) == k then [s[|s| - 1]] else []
  }

  lemma HavingPush<T, K>(s: seq<T>, x: T, key: T -> K, k: K)
    ensures Having(s + [x], key, k) == Having(s, key, k) + if key(x) == k then [x] else []
  {
    assert (s + [x])[..|s + [x]| - 1] == s;
  }

  lemma {:induction false} InsertHaving<T, K(!new)>(x: T, s: seq<T>, key: T -> K, le: (K, K) -> bool, k: K)
    requires TotalOrder(le)
    ensures Having(Insert(x, s, key, le), key, k) == Having(s, key, k) + if key(x) == k then [x] else []
  {
    if s == [] {
      assert [] + [x] == [x];
      HavingPush([], x, key, k);
    } else {
      var r, l := s[..|s| - 1], s[|s| - 1];
      HavingPush(s, x, key, k);
      if !le(key(l), key(x)) {
        InsertHaving(x, r, key, le, k);
        HavingPush(Insert(x, r, key, le), l, key, k);
      }
    }
  }

  /** Elements with equal keys keep their order. */
  lemma {:induction false} SortStable<T, K(!new)>(s: seq<T>, key: T -> K, le: (K, K) -> bool, k: K)
    requires TotalOrder(le)
    ensures Having(Sort(s, key, le), key, k) == Having(s, key, k)
  {
    if s != [] {
      SortStable(s[..|s| - 1], key, le, k);
      InsertHaving(s[|s| - 1], Sort(s[..|s| - 1], key, le), key, le, k);
    }
  }

  // ----- Strings -----

  /** `a` is a prefix of `b`, or has the smaller character at the first place where they differ. */
  ghost predicate Precedes(a: string, b: string) {
    a <= b || exists k: nat :: DiffersAt(a, b, k) && a[k] < b[k]
  }

  /** The first place where the two differ. */
  predicate DiffersAt<T(==)>(a: seq<T>, b: seq<T>, k: nat) {
    k < |a| && k < |b| && a[..k] == b[..k] && a[k] != b[k]
  }

  /** Lexicographic order by character code, a prefix first. */
  predicate StringLe(a: string, b: string) {
    a == [] || (b != [] && (a[0] < b[0] || (a[0] == b[0] && StringLe(a[1..], b[1..]))))
  }

  lemma DiffersFirst<T>(a: seq<T>, b: seq<T>, k: nat)
    requires DiffersAt(a, b, k) && a[0] != b[0]
    ensures k == 0
  {
    assert forall i :: 0 <= i < k ==> a[..k][i] == a[i] && b[..k][i] == b[i];
  }

  lemma DiffersBehind<T>(a: seq<T>, b: seq<T>, k: nat)
    requires a != [] && b != [] && a[0] == b[0]
    ensures DiffersAt(a, b, k) <==> k > 0 && DiffersAt(a[1..], b[1..], k - 1)
  {
    if 0 < k < |a| && k < |b| {
      assert a[1..][..k - 1] == a[..k][1..] && b[1..][..k - 1] == b[..k][1..];
      assert a[..k] == [a[0]] + a[..k][1..] && b[..k] == [b[0]] + b[..k][1..];
    }
  }

  lemma PrefixBehind<T>(a: seq<T>, b: seq<T>)
    requires a != [] && b != []
    ensures a <= b <==> a[0] == b[0] && a[1..] <= b[1..]
  {
    assert a == [a[0]] + a[1..] && b == [b[0]] + b[1..];
  }

  lemma {:induction false} StringLeIff(a: string, b: string)
    ensures StringLe(a, b) <==> Precedes(a, b)
  {
    if a != [] && b != [] {
      PrefixBehind(a, b);
      if a[0] == b[0] {
        StringLeIff(a[1..], b[1..]);
        PrecedesBehind(a, b);
      } else {
        hide DiffersAt;
        if k: nat :| DiffersAt(a, b, k) && a[k] < b[k] {
          DiffersFirst(a, b, k);
        }
        DiffersAtFirst(a, b);
      }
    }
  }

  lemma DiffersAtFirst<T>(a: seq<T>, b: seq<T>)
    requires a != [] && b != [] && a[0] != b[0]
    ensures DiffersAt(a, b, 0)
  {
  }

  lemma PrecedesBehind(a: string, b: string)
    requires a != [] && b != [] && a[0] == b[0]
    ensures Precedes(a, b) <==> Precedes(a[1..], b[1..])
  {
    PrefixBehind(a, b);
    if k: nat :| DiffersAt(a, b, k) && a[k] < b[k] {
      DiffersBehind(a, b, k);
      assert DiffersAt(a[1..], b[1..], k - 1);
    }
    if k: nat :| DiffersAt(a[1..], b[1..], k) && a[1..][k] < b[1..][k] {
      DiffersBehind(a, b, k + 1);
      assert DiffersAt(a, b, k + 1);
    }
  }

  lemma {:induction false} StringLeTotal(a: string, b: string)
    ensures StringLe(a, b) || StringLe(b, a)
    ensures StringLe(a, b) && StringLe(b, a) ==> a == b
  {
    if a != [] && b != [] {
      StringLeTotal(a[1..], b[1..]);
      assert a == [a[0]] + a[1..] && b == [b[0]] + b[1..];
    }
  }

  lemma {:induction false} StringLeTransitive(a: string, b: string, c: string)
    ensures StringLe(a, b) && StringLe(b, c) ==> StringLe(a, c)
  {
    if a != [] && b != [] && c != [] {
      StringLeTransitive(a[1..], b[1..], c[1..]);
    }
  }

  lemma StringLeIsTotalOrder()
    ensures TotalOrder(StringLe)
  {
    forall a, b
      ensures StringLe(a, b) || StringLe(b, a)
      ensures StringLe(a, b) && StringLe(b, a) ==> a == b
    {
      StringLeTotal(a, b);
    }
    forall a, b, c
      ensures StringLe(a, b) && StringLe(b, c) ==> StringLe(a, c)
    {
      StringLeTransitive(a, b, c);
    }
  }
}
