/**
 Tag names of buildscripts/update_test_lifecycle.py: `unreliable|task|variant|distro`, cut at the
 bars, and the order `compare_tags`.
 */
module TagNames {
  import opened Options
  import opened Sorting

  /** `s.split("|")`; the result is never empty. */
  function Split(s: string): (r: seq<string>)
    ensures |r| >= 1
  {
    if s == [] then [[]]
    else if s[0] == '|' then [[]] + Split(s[1..])
    else
      var r := Split(s[1..]);
      [[s[0]] + r[0]] + r[1..]
  }

  function Join(parts: seq<string>): string
    requires |parts| >= 1
  {
    if |parts| == 1 then parts[0] else parts[0] + "|" + Join(parts[1..])
  }

  lemma {:induction false} JoinSplit(s: string)
    ensures Join(Split(s)) == s
  {
    if s != [] {
      JoinSplit(s[1..]);
      var r := Split(s[1..]);
      if s[0] == '|' {
        assert ([[]] + r)[1..] == r;
        assert s == [] + "|" + s[1..];
      } else {
        assert ([[s[0]] + r[0]] + r[1..])[1..] == r[1..];
        assert s == [s[0]] + s[1..];
      }
    }
  }

  predicate HasNoBar(s: string) {
    '|' !in s
  }

  lemma {:induction false} SplitPart(s: string, rest: string)
    requires HasNoBar(s)
    ensures Split(s) == [s]
    ensures Split(s + "|" + rest) == [s] + Split(rest)
  {
    var w := s + "|" + rest;
    if s == [] {
      assert w[1..] == rest;
    } else {
      SplitPart(s[1..], rest);
      assert w[1..] == s[1..] + "|" + rest;
      assert s == [s[0]] + s[1..];
      assert ([s[1..]] + Split(rest))[1..] == Split(rest);
    }
  }

  lemma {:induction false} SplitJoin(parts: seq<string>)
    requires |parts| >= 1 && forall p :: p in parts ==> HasNoBar(p)
    ensures Split(Join(parts)) == parts
  {
    if |parts| == 1 {
      SplitPart(parts[0], []);
      assert parts == [parts[0]];
    } else {
      SplitJoin(parts[1..]);
      SplitPart(parts[0], Join(parts[1..]));
      assert parts == [parts[0]] + parts[1..];
    }
  }

  // ----- compare_tags -----

  /** Lists compare element by element, a prefix first. */
  predicate ListLe(a: seq<string>, b: seq<string>) {
    a == [] || (b != [] && ((a[0] != b[0] && StringLe(a[0], b[0])) || (a[0] == b[0] && ListLe(a[1..], b[1..]))))
  }

  predicate TagLe(a: string, b: string) {
    ListLe(Split(a), Split(b))
  }

  /** `a` has fewer components and they begin `b`, or the first component that differs comes first. */
  ghost predicate ListPrecedes(a: seq<string>, b: seq<string>) {
    a <= b || exists k: nat :: DiffersAt(a, b, k) && Precedes(a[k], b[k])
  }

  ghost predicate TagPrecedes(a: string, b: string) {
    ListPrecedes(Split(a), Split(b))
  }

  lemma {:induction false} ListLeIff(a: seq<string>, b: seq<string>)
    ensures ListLe(a, b) <==> ListPrecedes(a, b)
  {
    hide StringLe, Precedes;
    if a != [] && b != [] {
      PrefixBehind(a, b);
      StringLeIff(a[0], b[0]);
      if a[0] == b[0] {
        ListLeIff(a[1..], b[1..]);
        ListPrecedesBehind(a, b);
      } else {
        hide DiffersAt;
        if k: nat :| DiffersAt(a, b, k) && Precedes(a[k], b[k]) {
          DiffersFirst(a, b, k);
        }
        DiffersAtFirst(a, b);
      }
    }
  }

  lemma ListPrecedesBehind(a: seq<string>, b: seq<string>)
    requires a != [] && b != [] && a[0] == b[0]
    ensures ListPrecedes(a, b) <==> ListPrecedes(a[1..], b[1..])
  {
    hide Precedes;
    PrefixBehind(a, b);
    if k: nat :| DiffersAt(a, b, k) && Precedes(a[k], b[k]) {
      DiffersBehind(a, b, k);
      assert DiffersAt(a[1..], b[1..], k - 1);
    }
    if k: nat :| DiffersAt(a[1..], b[1..], k) && Precedes(a[1..][k], b[1..][k]) {
      DiffersBehind(a, b, k + 1);
      assert DiffersAt(a, b, k + 1);
    }
  }

  /** `compare_tags` compares by the first component in which the tags differ. */
  lemma TagLeIff(a: string, b: string)
    ensures TagLe(a, b) <==> TagPrecedes(a, b)
  {
    ListLeIff(Split(a), Split(b));
  }

  lemma {:induction false} ListLeTotal(a: seq<string>, b: seq<string>)
    ensures ListLe(a, b) || ListLe(b, a)
    ensures ListLe(a, b) && ListLe(b, a) ==> a == b
  {
    if a != [] && b != [] {
      StringLeTotal(a[0], b[0]);
      ListLeTotal(a[1..], b[1..]);
      assert a == [a[0]] + a[1..] && b == [b[0]] + b[1..];
    }
  }

  lemma {:induction false} ListLeTransitive(a: seq<string>, b: seq<string>, c: seq<string>)
    ensures ListLe(a, b) && ListLe(b, c) ==> ListLe(a, c)
  {
    if a != [] && b != [] && c != [] {
      StringLeTransitive(a[0], b[0], c[0]);
      StringLeTotal(a[0], b[0]);
      StringLeTotal(b[0], c[0]);
      ListLeTransitive(a[1..], b[1..], c[1..]);
    }
  }

  /** `compare_tags` tells any two different tags apart and orders them consistently. */
  lemma CompareTagsIsTotalOrder()
    ensures TotalOrder(TagLe)
  {
    forall a, b
      ensures TagLe(a, b) || TagLe(b, a)
      ensures TagLe(a, b) && TagLe(b, a) ==> a == b
    {
      ListLeTotal(Split(a), Split(b));
      JoinSplit(a);
      JoinSplit(b);
    }
    forall a, b, c
      ensures TagLe(a, b) && TagLe(b, c) ==> TagLe(a, c)
    {
      ListLeTransitive(Split(a), Split(b), Split(c));
    }
  }

  // ----- Tags and test combinations -----

  /** The components of a summary; `None` stands for a wildcard or a missing component. */
  function UnreliableTag(task: Option<string>, variant: Option<string>, distro: Option<string>): string {
    if task.None? then "unreliable"
    else if variant.None? then "unreliable|" + task.value
    else if distro.None? then "unreliable|" + task.value + "|" + variant.value
    else "unreliable|" + task.value + "|" + variant.value + "|" + distro.value
  }

  /** The task, variant and distro of a tag, as far as present. */
  function SplitTag(tag: string): (Option<string>, Option<string>, Option<string>) {
    var e := Split(tag);
    if e[0] != "unreliable" || |e| < 2 || |e| > 4 then (None, None, None)
    else (Some(e[1]), if |e| > 2 then Some(e[2]) else None, if |e| > 3 then Some(e[3]) else None)
  }

  function Component(c: Option<string>): seq<string> {
    if c.Some? && c.value != [] then [c.value] else []
  }

  /** The test and the components found in the tag; absent and empty components are left out. */
  function CombinationFromTag(test: string, tag: string): seq<string> {
    var (task, variant, distro) := SplitTag(tag);
    [test] + Component(task) + Component(variant) + Component(distro)
  }

  predicate IsName(s: string) {
    s != [] && HasNoBar(s)
  }

  /** The tag for a combination of a test and up to three named components. */
  function TagFor(combination: seq<string>): string
    requires 1 <= |combination| <= 4
  {
    UnreliableTag(if |combination| > 1 then Some(combination[1]) else None,
                  if |combination| > 2 then Some(combination[2]) else None,
                  if |combination| > 3 then Some(combination[3]) else None)
  }

  lemma TagForIsJoin(combination: seq<string>)
    requires 1 <= |combination| <= 4
    ensures TagFor(combination) == Join(["unreliable"] + combination[1..])
  {
    var c := combination;
    var p := ["unreliable"] + c[1..];
    if |c| == 1 {
      assert p == ["unreliable"];
    } else if |c| == 2 {
      assert p == ["unreliable", c[1]];
      JoinTwo("unreliable", [c[1]]);
      assert "unreliable" + "|" + c[1] == "unreliable|" + c[1];
    } else if |c| == 3 {
      assert p == ["unreliable", c[1], c[2]];
      JoinTwo("unreliable", [c[1], c[2]]);
      JoinTwo(c[1], [c[2]]);
      assert "unreliable" + "|" + (c[1] + "|" + c[2]) == "unreliable|" + c[1] + "|" + c[2];
    } else {
      assert p == ["unreliable", c[1], c[2], c[3]];
      JoinTwo("unreliable", [c[1], c[2], c[3]]);
      JoinTwo(c[1], [c[2], c[3]]);
      JoinTwo(c[2], [c[3]]);
      assert "unreliable" + "|" + (c[1] + "|" + (c[2] + "|" + c[3])) ==
             "unreliable|" + c[1] + "|" + c[2] + "|" + c[3];
    }
  }

  lemma JoinTwo(first: string, rest: seq<string>)
    requires |rest| >= 1
    ensures Join([first] + rest) == first + "|" + Join(rest)
  {
    assert ([first] + rest)[1..] == rest;
  }

  lemma {:induction false} SplitHasNoBars(s: string)
    ensures forall p :: p in Split(s) ==> HasNoBar(p)
  {
    if s != [] {
      SplitHasNoBars(s[1..]);
      var r := Split(s[1..]);
      assert r[0] in r;
      forall p | p in Split(s)
        ensures HasNoBar(p)
      {
        if s[0] != '|' && p != [s[0]] + r[0] {
          assert p in r[1..];
        }
      }
    }
  }

  /** Whatever the tag, the components found in it are names. */
  lemma CombinationIsNamed(test: string, tag: string)
    ensures var c := CombinationFromTag(test, tag);
            1 <= |c| <= 4 && c[0] == test && forall i :: 1 <= i < |c| ==> IsName(c[i])
  {
    hide Split;
    SplitHasNoBars(tag);
  }

  lemma NamedTagSplits(combination: seq<string>)
    requires 1 <= |combination| <= 4 && forall i :: 1 <= i < |combination| ==> IsName(combination[i])
    ensures Split(TagFor(combination)) == ["unreliable"] + combination[1..]
  {
    hide Split, Join, TagFor;
    var c := combination;
    var p := ["unreliable"] + c[1..];
    TagForIsJoin(c);
    assert HasNoBar("unreliable");
    forall x | x in p
      ensures HasNoBar(x)
    {
      if x in c[1..] {
        var i :| 0 <= i < |c[1..]| && c[1..][i] == x;
        assert c[i + 1] == x;
      }
    }
    SplitJoin(p);
  }

  /** From a combination to its tag and back: exactly the combinations of named components come back. */
  lemma TagRoundTrip(combination: seq<string>)
    requires 1 <= |combination| <= 4
    ensures CombinationFromTag(combination[0], TagFor(combination)) == combination
            <==> forall i :: 1 <= i < |combination| ==> IsName(combination[i])
  {
    hide Split, TagFor;
    var c := combination;
    CombinationIsNamed(c[0], TagFor(c));
    if forall i :: 1 <= i < |c| ==> IsName(c[i]) {
      NamedTagSplits(c);
      var p := ["unreliable"] + c[1..];
      assert forall i :: 1 <= i < |c| ==> p[i] == c[i];
    }
  }

  /** `unreliable` followed by up to three components, none of them empty. */
  predicate IsOwnTag(tag: string) {
    var e := Split(tag);
    e[0] == "unreliable" && |e| <= 4 && forall i :: 1 <= i < |e| ==> e[i] != []
  }

  /** From a tag to its combination and back: exactly the tags of the expected shape come back. */
  lemma OwnTagIff(test: string, tag: string)
    ensures 1 <= |CombinationFromTag(test, tag)| <= 4
    ensures TagFor(CombinationFromTag(test, tag)) == tag <==> IsOwnTag(tag)
  {
    hide Split, Join, TagFor, UnreliableTag;
    var c, e := CombinationFromTag(test, tag), Split(tag);
    CombinationIsNamed(test, tag);
    NamedTagSplits(c);
    if IsOwnTag(tag) {
      assert c[1..] == e[1..];
      assert e == ["unreliable"] + e[1..];
      TagForIsJoin(c);
      JoinSplit(tag);
    }
  }

  /** Different combinations of one test have different tags. */
  lemma TagForInjective(a: seq<string>, b: seq<string>)
    requires 1 <= |a| <= 4 && 1 <= |b| <= 4 && a[0] == b[0] && TagFor(a) == TagFor(b)
    requires forall i :: 1 <= i < |a| ==> IsName(a[i])
    requires forall i :: 1 <= i < |b| ==> IsName(b[i])
    ensures a == b
  {
    TagRoundTrip(a);
    TagRoundTrip(b);
  }
}
