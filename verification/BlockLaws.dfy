/**
 What the stack of blocks of `NestingState` is, in terms of the text read.

 Braces: the stack holds exactly the open braces that have not been closed. Heads: which blocks a line
 declares, and with which attributes. Parentheses: the count of a block is the sum of the depth changes
 read while it was on top. The laws speak of counts and sums over the text, not of the updates.
 */
module BlockLaws {
  import opened Options
  import opened Sequences
  import opened Nesting

  // ----- Braces -----

  /** Open braces less closing braces in the first `i` tokens. */
  function Depth(tokens: seq<Token>, i: nat): int
    requires i <= |tokens|
  {
    if i == 0 then 0
    else Depth(tokens, i - 1) + if tokens[i - 1].OpenBrace? then 1 else if tokens[i - 1].CloseBrace? then -1 else 0
  }

  /** The lowest depth anywhere; its negative is the number of closing braces without an open one. */
  function Lowest(tokens: seq<Token>, i: nat): int
    requires i <= |tokens|
  {
    if i == 0 then 0
    else
      var r, d := Lowest(tokens, i - 1), Depth(tokens, i);
      if d < r then d else r
  }

  /** An open brace that is never closed: the depth stays above that before it. */
  ghost predicate IsUnclosed(tokens: seq<Token>, i: nat) {
    i < |tokens| && tokens[i].OpenBrace? && forall j :: i < j <= |tokens| ==> Depth(tokens, j) > Depth(tokens, i)
  }

  /** `u` lists the open braces that are never closed, in order. */
  ghost predicate AreUnclosed(tokens: seq<Token>, u: seq<nat>) {
    && (forall a, b :: 0 <= a < b < |u| ==> u[a] < u[b])
    && (forall i: nat :: i in u <==> IsUnclosed(tokens, i))
  }

  /** The heads of all blocks are complete. */
  predicate IsComplete(st: seq<BlockVal>) {
    forall i :: 0 <= i < |st| ==> st[i].seenOpenBrace
  }

  /** The block an open brace begins: extern "C" or plain, the latter perhaps of assembly code. */
  function OpenedBy(externC: bool, asm: bool): BlockVal {
    BlockVal(if externC then ExternC else Plain, true, 0, if asm && !externC then BlockAsm else NoAsm, false, "")
  }

  /** How many of `n` blocks are left when `closed` closing braces have no open one. */
  function Left(n: nat, closed: int): (left: nat)
    ensures left <= n
  {
    if closed >= n then 0 else if closed <= 0 then n else n - closed
  }

  predicate AreOpens(tokens: seq<Token>, u: seq<nat>) {
    forall k :: 0 <= k < |u| ==> u[k] < |tokens| && tokens[u[k]].OpenBrace?
  }

  /** One block for each of the open braces `u`, in order. */
  function BlocksOf(tokens: seq<Token>, u: seq<nat>): (bs: seq<BlockVal>)
    requires AreOpens(tokens, u)
    ensures |bs| == |u|
    ensures forall k :: 0 <= k < |u| ==> bs[k] == OpenedBy(tokens[u[k]].externC, tokens[u[k]].asm)
  {
    seq(|u|, k requires 0 <= k < |u| => OpenedBy(tokens[u[k]].externC, tokens[u[k]].asm))
  }

  /** The stack is what is left of `st`, and one block for each of the open braces `u`. */
  ghost predicate HoldsUnclosed(st: seq<BlockVal>, tokens: seq<Token>, u: seq<nat>, r: seq<BlockVal>) {
    && AreOpens(tokens, u)
    && r == st[..Left(|st|, -Lowest(tokens, |tokens|))] + BlocksOf(tokens, u)
  }

  lemma {:induction false} DepthOfPrefix(tokens: seq<Token>, n: nat, i: nat)
    requires i <= n <= |tokens|
    ensures Depth(tokens[..n], i) == Depth(tokens, i) && Lowest(tokens[..n], i) == Lowest(tokens, i)
    decreases i
  {
    if i > 0 {
      DepthOfPrefix(tokens, n, i - 1);
    }
  }

  /** What the induction over the tokens needs: depths go up by one along the unclosed braces. */
  ghost predicate IsStaircase(tokens: seq<Token>, u: seq<nat>) {
    var low := Lowest(tokens, |tokens|);
    && Depth(tokens, |tokens|) == low + |u|
    && IsStair(tokens, u, low)
  }

  ghost predicate IsStair(tokens: seq<Token>, u: seq<nat>, low: int) {
    forall k :: 0 <= k < |u| ==> u[k] < |tokens| && Depth(tokens, u[k]) == low + k
  }

  /** The unclosed braces after one more token. */
  lemma UnclosedNext(tokens: seq<Token>, u': seq<nat>, u: seq<nat>)
    requires tokens != [] && AreUnclosed(Pop(tokens), u') && IsStaircase(Pop(tokens), u')
    requires u == if Top(tokens).OpenBrace? then u' + [|tokens| - 1]
                  else if Top(tokens).CloseBrace? && u' != [] then Pop(u') else u'
    ensures AreUnclosed(tokens, u) && IsStaircase(tokens, u)
    ensures Lowest(tokens, |tokens|) ==
            Lowest(Pop(tokens), |tokens| - 1) - if Top(tokens).CloseBrace? && u' == [] then 1 else 0
  {
    hide AreUnclosed, IsStaircase, Depth, Lowest;
    UnclosedMembers(tokens, u', u);
    StairNext(tokens, u', u);
  }

  lemma StairNext(tokens: seq<Token>, u': seq<nat>, u: seq<nat>)
    requires tokens != [] && IsStaircase(Pop(tokens), u')
    requires u == if Top(tokens).OpenBrace? then u' + [|tokens| - 1]
                  else if Top(tokens).CloseBrace? && u' != [] then Pop(u') else u'
    ensures IsStaircase(tokens, u)
    ensures Lowest(tokens, |tokens|) ==
            Lowest(Pop(tokens), |tokens| - 1) - if Top(tokens).CloseBrace? && u' == [] then 1 else 0
  {
    hide Depth, Lowest, IsStair;
    LastDepth(tokens);
    var low := Lowest(Pop(tokens), |tokens| - 1);
    StairKept(tokens, u', low);
    if Top(tokens).OpenBrace? {
      StairGrows(tokens, u', low);
    } else if Top(tokens).CloseBrace? {
      StairShrinks(tokens, u', low);
    }
  }

  /** The steps up to the last token are steps of the whole. */
  lemma StairKept(tokens: seq<Token>, u: seq<nat>, low: int)
    requires tokens != [] && IsStair(Pop(tokens), u, low)
    ensures IsStair(tokens, u, low)
  {
    hide Depth;
    forall k | 0 <= k < |u|
      ensures u[k] < |tokens| && Depth(tokens, u[k]) == low + k
    {
      DepthOfPrefix(tokens, |tokens| - 1, u[k]);
    }
  }

  lemma StairGrows(tokens: seq<Token>, u: seq<nat>, low: int)
    requires tokens != [] && IsStair(tokens, u, low) && Depth(tokens, |tokens| - 1) == low + |u|
    ensures IsStair(tokens, u + [|tokens| - 1], low)
  {
    hide Depth;
  }

  lemma StairShrinks(tokens: seq<Token>, u: seq<nat>, low: int)
    requires IsStair(tokens, u, low)
    ensures u != [] ==> IsStair(tokens, Pop(u), low)
    ensures u == [] ==> IsStair(tokens, u, low - 1)
  {
    hide Depth;
  }

  /** Depth and lowest depth after the last token. */
  lemma LastDepth(tokens: seq<Token>)
    requires tokens != []
    ensures var n, t := |tokens|, Top(tokens);
            var d, low := Depth(Pop(tokens), n - 1), Lowest(Pop(tokens), n - 1);
            && Depth(tokens, n) == d + (if t.OpenBrace? then 1 else if t.CloseBrace? then -1 else 0)
            && Lowest(tokens, n) == (if Depth(tokens, n) < low then Depth(tokens, n) else low)
            && Depth(tokens, n - 1) == d
  {
    DepthOfPrefix(tokens, |tokens| - 1, |tokens| - 1);
  }

  lemma UnclosedMembers(tokens: seq<Token>, u': seq<nat>, u: seq<nat>)
    requires tokens != [] && AreUnclosed(Pop(tokens), u') && IsStaircase(Pop(tokens), u')
    requires u == if Top(tokens).OpenBrace? then u' + [|tokens| - 1]
                  else if Top(tokens).CloseBrace? && u' != [] then Pop(u') else u'
    ensures AreUnclosed(tokens, u)
  {
    hide Depth, Lowest;
    var n := |tokens|;
    forall i: nat
      ensures i in u <==> IsUnclosed(tokens, i)
    {
      UnclosedOne(tokens, i);
      if i in u' {
        var k :| 0 <= k < |u'| && u'[k] == i;
        assert Top(tokens).CloseBrace? ==> (i in Pop(u') <==> k < |u'| - 1);
      }
    }
  }

  lemma UnclosedOne(tokens: seq<Token>, i: nat)
    requires tokens != []
    ensures IsUnclosed(tokens, i) <==>
            || (i == |tokens| - 1 && Top(tokens).OpenBrace?)
            || (IsUnclosed(Pop(tokens), i) && Depth(tokens, |tokens|) > Depth(Pop(tokens), i))
    ensures Depth(tokens, |tokens|) ==
            Depth(Pop(tokens), |tokens| - 1) + if Top(tokens).OpenBrace? then 1 else if Top(tokens).CloseBrace? then -1 else 0
  {
    var n := |tokens|;
    forall j | 0 <= j <= n - 1
      ensures Depth(Pop(tokens), j) == Depth(tokens, j)
    {
      DepthOfPrefix(tokens, n - 1, j);
    }
  }

  /**
   The stack after any tokens, from a stack of complete heads: what the closing braces without an open
   one have left of it, and then exactly the open braces that are never closed, each with the kind of
   block asked for.
   */
  lemma {:induction false} StackAfterTokens(st: seq<BlockVal>, tokens: seq<Token>) returns (u: seq<nat>)
    requires IsComplete(st)
    ensures AreUnclosed(tokens, u) && IsStaircase(tokens, u)
    ensures HoldsUnclosed(st, tokens, u, ConsumeTokens(st, tokens)) && IsComplete(ConsumeTokens(st, tokens))
    decreases |tokens|
  {
    if tokens == [] {
      u := [];
    } else {
      hide AreUnclosed, IsStaircase, Lowest, Depth;
      var u' := StackAfterTokens(st, Pop(tokens));
      u := if Top(tokens).OpenBrace? then u' + [|tokens| - 1]
           else if Top(tokens).CloseBrace? && u' != [] then Pop(u') else u';
      UnclosedNext(tokens, u', u);
      LowestIsNone(Pop(tokens), |tokens| - 1);
      HoldsNext(st, tokens, u', u, ConsumeTokens(st, Pop(tokens)));
    }
  }

  /** One more token on a stack of complete heads. */
  lemma HoldsNext(st: seq<BlockVal>, tokens: seq<Token>, u': seq<nat>, u: seq<nat>, r: seq<BlockVal>)
    requires tokens != [] && HoldsUnclosed(st, Pop(tokens), u', r) && IsComplete(r)
    requires u == if Top(tokens).OpenBrace? then u' + [|tokens| - 1]
                  else if Top(tokens).CloseBrace? && u' != [] then Pop(u') else u'
    requires Lowest(Pop(tokens), |tokens| - 1) <= 0
    requires Lowest(tokens, |tokens|) ==
             Lowest(Pop(tokens), |tokens| - 1) - if Top(tokens).CloseBrace? && u' == [] then 1 else 0
    ensures HoldsUnclosed(st, tokens, u, ConsumeToken(r, Top(tokens))) && IsComplete(ConsumeToken(r, Top(tokens)))
  {
    hide Lowest, BlocksOf, ConsumeToken, IsComplete, AreOpens, Left;
    CompleteToken(r, Top(tokens));
    BlocksNext(tokens, u', u);
    JoinedNext(st, -Lowest(Pop(tokens), |tokens| - 1), BlocksOf(Pop(tokens), u'), Top(tokens));
  }

  /** The same on what is left of the stack and the blocks opened since. */
  lemma JoinedNext(st: seq<BlockVal>, closed: int, bs: seq<BlockVal>, t: Token)
    requires closed >= 0 && IsComplete(st[..Left(|st|, closed)] + bs)
    ensures var closes := t.CloseBrace? && bs == [];
            ConsumeToken(st[..Left(|st|, closed)] + bs, t) ==
            st[..Left(|st|, if closes then closed + 1 else closed)] +
            (if t.OpenBrace? then bs + [OpenedBy(t.externC, t.asm)] else if t.CloseBrace? && bs != [] then Pop(bs) else bs)
  {
    hide ConsumeToken, IsComplete, Left;
    var base := st[..Left(|st|, closed)];
    CompleteToken(base + bs, t);
    DropLast(base, bs);
    ClosesOne(st, closed);
    match t
    case OpenBrace(externC, asm) =>
      var b := OpenedBy(externC, asm);
      assert base + bs + [b] == base + (bs + [b]);
    case CloseBrace =>
      if bs == [] {
        assert st[..Left(|st|, closed + 1)] + [] == st[..Left(|st|, closed + 1)];
      }
    case _ =>
  }

  /** What a token does to a stack of complete heads. */
  lemma CompleteToken(r: seq<BlockVal>, t: Token)
    requires IsComplete(r)
    ensures IsComplete(ConsumeToken(r, t))
    ensures ConsumeToken(r, t) ==
            match t
            case OpenBrace(externC, asm) => r + [OpenedBy(externC, asm)]
            case CloseBrace => if r == [] then r else Pop(r)
            case _ => r
  {
  }

  lemma BlocksNext(tokens: seq<Token>, u': seq<nat>, u: seq<nat>)
    requires tokens != [] && AreOpens(Pop(tokens), u')
    requires u == if Top(tokens).OpenBrace? then u' + [|tokens| - 1]
                  else if Top(tokens).CloseBrace? && u' != [] then Pop(u') else u'
    ensures AreOpens(tokens, u)
    ensures var t, bs := Top(tokens), BlocksOf(Pop(tokens), u');
            && |bs| == |u'|
            && BlocksOf(tokens, u) ==
               if t.OpenBrace? then bs + [OpenedBy(t.externC, t.asm)]
               else if t.CloseBrace? && u' != [] then Pop(bs) else bs
  {
  }

  lemma DropLast<T>(a: seq<T>, b: seq<T>)
    ensures b != [] ==> Pop(a + b) == a + Pop(b)
    ensures b == [] ==> a + b == a
  {
  }

  lemma ClosesOne(st: seq<BlockVal>, closed: int)
    requires closed >= 0
    ensures var base := st[..Left(|st|, closed)];
            st[..Left(|st|, closed + 1)] == if base == [] then base else Pop(base)
  {
  }

  lemma {:induction false} LowestIsNone(tokens: seq<Token>, i: nat)
    requires i <= |tokens|
    ensures Lowest(tokens, i) <= 0
  {
    if i > 0 {
      LowestIsNone(tokens, i - 1);
    }
  }

  /** Every closing brace has its open one and the other way round. */
  predicate AreBalanced(tokens: seq<Token>) {
    Depth(tokens, |tokens|) == 0 && forall i :: 0 <= i <= |tokens| ==> Depth(tokens, i) >= 0
  }

  lemma {:induction false} BalancedLowest(tokens: seq<Token>, i: nat)
    requires i <= |tokens| && forall j :: 0 <= j <= i ==> Depth(tokens, j) >= 0
    ensures Lowest(tokens, i) == 0
  {
    if i > 0 {
      BalancedLowest(tokens, i - 1);
    }
  }

  /** Balanced braces leave the stack as it was. */
  lemma BalancedTokensKeep(st: seq<BlockVal>, tokens: seq<Token>)
    requires IsComplete(st) && AreBalanced(tokens)
    ensures ConsumeTokens(st, tokens) == st
  {
    var u := StackAfterTokens(st, tokens);
    BalancedLowest(tokens, |tokens|);
    assert st[..|st|] == st;
  }

  lemma {:induction false} TokensConcat(st: seq<BlockVal>, a: seq<Token>, b: seq<Token>)
    ensures ConsumeTokens(st, a + b) == ConsumeTokens(ConsumeTokens(st, a), b)
    decreases |b|
  {
    if b == [] {
      assert a + b == a;
    } else {
      assert Pop(a + b) == a + Pop(b) && Top(a + b) == Top(b);
      TokensConcat(st, a, Pop(b));
    }
  }

  /** An open brace among balanced ones adds its block, a closing brace drops the innermost. */
  lemma LoneBrace(st: seq<BlockVal>, a: seq<Token>, t: Token, b: seq<Token>)
    requires IsComplete(st) && AreBalanced(a) && AreBalanced(b)
    ensures t.OpenBrace? ==> ConsumeTokens(st, a + [t] + b) == st + [OpenedBy(t.externC, t.asm)]
    ensures t.CloseBrace? ==> ConsumeTokens(st, a + [t] + b) == if st == [] then [] else Pop(st)
    ensures !t.OpenBrace? && !t.CloseBrace? ==> ConsumeTokens(st, a + [t] + b) == st
  {
    TokensConcat(st, a + [t], b);
    TokensConcat(st, a, [t]);
    BalancedTokensKeep(st, a);
    assert Pop([t]) == [];
    var r := ConsumeTokens(st, [t]);
    assert IsComplete(r);
    BalancedTokensKeep(r, b);
  }

  /** A head that waits for its brace: the next token completes it or drops it. */
  lemma HeadMeetsToken(st: seq<BlockVal>, head: BlockVal, t: Token, rest: seq<Token>)
    requires !head.seenOpenBrace
    ensures ConsumeTokens(st + [head], [t] + rest) ==
            ConsumeTokens(if t.OpenBrace? then st + [head.(seenOpenBrace := true)] else st, rest)
  {
    TokensConcat(st + [head], [t], rest);
    assert Pop([t]) == [] && Pop(st + [head]) == st;
    assert ConsumeTokens(st + [head], [t]) == if t.OpenBrace? then st + [head.(seenOpenBrace := true)] else st;
  }

  // ----- Heads -----

  /** A class head counts: no parenthesis is open where it stands, and it is not in template arguments. */
  predicate CountsAsClass(st: seq<BlockVal>, line: Line) {
    && line.classDecl.Some? && !line.classDecl.value.inTemplateArguments
    && (line.namespaces != [] || st == [] || st[|st| - 1].openParens + line.depthChange == 0)
  }

  lemma {:induction false} NamespacesInOrder(st: seq<BlockVal>, decls: seq<NamespaceDecl>)
    ensures var r := PushNamespaces(st, decls);
            && |r| == |st| + |decls| && r[..|st|] == st
            && forall i :: 0 <= i < |decls| ==>
                 r[|st| + i] == BlockVal(Namespace(decls[i].name, decls[i].start), decls[i].hasBrace, 0, NoAsm, false, "")
  {
    if decls != [] {
      NamespacesInOrder(st, Pop(decls));
    }
  }

  /** The access a class begins with: public for a struct, private otherwise, or what the rest of the line says. */
  function FirstAccess(decl: ClassDecl): string {
    if !decl.kind.Class? then ""
    else if decl.tail.access.Some? then decl.tail.access.value
    else if decl.kind.isStruct then "public" else "private"
  }

  /**
   The blocks there are when the braces of a line are reached: those from before, one for each
   namespace head with its name and brace, in order, and one for a class head that counts.
   */
  lemma HeadsOfLine(st: seq<BlockVal>, line: Line)
    ensures var r, n, k := Declared(st, line), |st|, |line.namespaces|;
            && |r| == n + k + (if CountsAsClass(st, line) then 1 else 0)
            && (forall i :: 0 <= i < n - 1 ==> r[i] == st[i])
            && (forall i :: 0 <= i < k ==>
                  var d := line.namespaces[i];
                  r[n + i] == BlockVal(Namespace(d.name, d.start), d.hasBrace, 0, NoAsm, false, ""))
            && (CountsAsClass(st, line) ==>
                  var d := line.classDecl.value;
                  r[n + k] == BlockVal(d.kind, false, 0, NoAsm, d.kind.Class? && line.bareColon, FirstAccess(d)))
    ensures TailOf(Opened(st, line), line) == if CountsAsClass(st, line) then line.classDecl.value.tail else line.tail
  {
    hide PushNamespaces;
    NamespacesInOrder(CountParens(st, line), line.namespaces);
    AcceptsIffCounts(st, line);
  }

  lemma AcceptsIffCounts(st: seq<BlockVal>, line: Line)
    ensures AcceptsClass(Opened(st, line), line) <==> CountsAsClass(st, line)
  {
    hide PushNamespaces;
    NamespacesInOrder(CountParens(st, line), line.namespaces);
    var r, k := Opened(st, line), |line.namespaces|;
    if k > 0 {
      var i := k - 1;
      assert r[|CountParens(st, line)| + i] ==
             BlockVal(Namespace(line.namespaces[i].name, line.namespaces[i].start), line.namespaces[i].hasBrace, 0, NoAsm, false, "");
    } else if st != [] {
      assert r[..|st|] == CountParens(st, line);
      assert Top(r) == Top(CountParens(st, line));
    }
  }

  /** What a line does to the block on top before its braces are reached. */
  lemma TopOfLine(st: seq<BlockVal>, line: Line)
    requires st != []
    ensures |Declared(st, line)| >= |st|
    ensures var b, d := st[|st| - 1], Declared(st, line)[|st| - 1];
            var alone := line.namespaces == [] && !CountsAsClass(st, line);
            && d.kind == b.kind && d.seenOpenBrace == b.seenOpenBrace
            && d.openParens == b.openParens + line.depthChange
            && d.isDerived == (b.isDerived || (alone && b.kind.Class? && !b.seenOpenBrace && line.bareColon))
            && d.access == (if alone && b.kind.Class? && line.tail.access.Some? then line.tail.access.value else b.access)
            // Assembly code begins with the first open parenthesis behind its keyword and ends when none is open.
            && (d.asm == InsideAsm <==>
                || (b.asm == InsideAsm && d.openParens != 0)
                || (b.asm in {NoAsm, EndAsm} && line.asm && line.depthChange != 0 && d.openParens == 1))
            && (d.asm == EndAsm <==> b.asm == InsideAsm && d.openParens == 0)
            && (d.asm == BlockAsm <==> b.asm == BlockAsm)
  {
    hide PushNamespaces;
    NamespacesInOrder(CountParens(st, line), line.namespaces);
    AcceptsIffCounts(st, line);
  }

  // ----- Parentheses -----

  /** While the braces of the line are read the stack never gets as low as block `k`. */
  ghost predicate Survives(st: seq<BlockVal>, line: Line, k: nat) {
    var tokens := TailOf(Opened(st, line), line).tokens;
    forall i :: 0 <= i <= |tokens| ==> k < |ConsumeTokens(Declared(st, line), tokens[..i])|
  }

  lemma {:induction false} LiveIff(d: seq<BlockVal>, tokens: seq<Token>, k: nat)
    requires k < |d|
    ensures TokensFate(d, tokens, k).live <==> forall i :: 0 <= i <= |tokens| ==> k < |ConsumeTokens(d, tokens[..i])|
    decreases |tokens|
  {
    hide ConsumeToken;
    if tokens == [] {
      assert tokens[..0] == [];
    } else {
      LiveIff(d, Pop(tokens), k);
      forall i | 0 <= i < |tokens|
        ensures Pop(tokens)[..i] == tokens[..i]
      {
      }
      assert tokens[..|tokens|] == tokens;
    }
  }

  /** Braces neither count parentheses nor keep counts: a block from before has its count, a new one none. */
  lemma {:induction false} ParensOfTokens(d: seq<BlockVal>, tokens: seq<Token>, k: nat)
    requires k < |ConsumeTokens(d, tokens)|
    ensures ConsumeTokens(d, tokens)[k].openParens ==
            if k < |d| && TokensFate(d, tokens, k).live then d[k].openParens else 0
    decreases |tokens|
  {
    if tokens != [] {
      var s, t := ConsumeTokens(d, Pop(tokens)), Top(tokens);
      if k < |s| {
        ParensOfTokens(d, Pop(tokens), k);
      }
      if k < |d| {
        TokensChangeBlock(d, tokens, k);
        TokensChangeBlock(d, Pop(tokens), k);
      }
    }
  }

  /** One line: the block on top counts the depth change, blocks below keep their count, new blocks have none. */
  lemma ParensOfLine(st: seq<BlockVal>, line: Line, k: nat)
    requires k < |UpdateBlocks(st, line)|
    ensures UpdateBlocks(st, line)[k].openParens ==
            if k < |st| && Survives(st, line, k)
            then st[k].openParens + (if k == |st| - 1 then line.depthChange else 0)
            else 0
  {
    hide ConsumeTokens, Declared, TokensFate, Opened, TailOf;
    var d, tokens := Declared(st, line), TailOf(Opened(st, line), line).tokens;
    ParensOfTokens(d, tokens, k);
    HeadsOfLine(st, line);
    if k < |d| {
      LiveIff(d, tokens, k);
      NewHeadHasNone(st, line, k);
      if st != [] {
        TopOfLine(st, line);
      }
    }
  }

  lemma NewHeadHasNone(st: seq<BlockVal>, line: Line, k: nat)
    requires |st| <= k < |Declared(st, line)| || k < |st|
    ensures |st| <= k ==> Declared(st, line)[k].openParens == 0
  {
    hide Declared, Opened, TailOf;
    HeadsOfLine(st, line);
    if |st| <= k < |st| + |line.namespaces| {
      var i := k - |st|;
      assert Declared(st, line)[|st| + i].openParens == 0 by {
        var x := line.namespaces[i];
      }
    }
  }

  // ----- Whole files -----

  /** The live stack before line `i`. */
  function StackAt(lines: seq<Line>, i: nat): seq<BlockVal>
    requires i <= |lines|
  {
    Run(lines[..i]).stack
  }

  /** No directive puts another stack in place of the live one. */
  ghost predicate IsSteady(lines: seq<Line>) {
    forall i :: 0 <= i < |lines| ==> !ReplacesStack(Run(lines[..i]), lines[i].directive)
  }

  lemma SteadyStep(lines: seq<Line>, i: nat)
    requires IsSteady(lines) && i < |lines|
    ensures StackAt(lines, i + 1) == UpdateBlocks(StackAt(lines, i), lines[i])
  {
    hide UpdateBlocks;
    assert Pop(lines[..i + 1]) == lines[..i] && Top(lines[..i + 1]) == lines[i];
  }

  /** Block `k` was pushed while line `b` was read. */
  ghost predicate IsBornIn(lines: seq<Line>, b: nat, k: nat) {
    && b < |lines| && k < |StackAt(lines, b + 1)|
    && !(k < |StackAt(lines, b)| && Survives(StackAt(lines, b), lines[b], k))
  }

  /** Since then it has been on the stack all the time. */
  ghost predicate StaysSince(lines: seq<Line>, b: nat, k: nat) {
    forall i :: b < i < |lines| ==> k < |StackAt(lines, i)| && Survives(StackAt(lines, i), lines[i], k)
  }

  /** The sum of the depth changes of those lines, from `a` on, before which block `k` was on top. */
  function SumOnTop(lines: seq<Line>, a: nat, k: nat): int {
    if |lines| <= a then 0
    else SumOnTop(Pop(lines), a, k) + if |StackAt(lines, |lines| - 1)| == k + 1 then Top(lines).depthChange else 0
  }

  /**
   Over a whole file: every block on the stack was pushed in some line and has stayed since, and its count
   of open parentheses is the sum of the depth changes read while it was on top.
   */
  lemma {:induction false} ParensAreSums(lines: seq<Line>, k: nat) returns (b: nat)
    requires IsSteady(lines) && k < |Run(lines).stack|
    ensures IsBornIn(lines, b, k) && StaysSince(lines, b, k)
    ensures Run(lines).stack[k].openParens == SumOnTop(lines, b + 1, k)
    decreases |lines|
  {
    hide UpdateBlocks, Survives, IsBornIn, StaysSince, IsSteady;
    var n, r := |lines| - 1, Pop(lines);
    assert lines[..|lines|] == lines && lines[..n] == r;
    SteadyStep(lines, n);
    var st := StackAt(lines, n);
    ParensOfLine(st, lines[n], k);
    if k < |st| && Survives(st, lines[n], k) {
      SteadyPrefix(lines);
      b := ParensAreSums(r, k);
      HistoryExtends(lines, b, k);
    } else {
      b := n;
      BornLast(lines, k);
    }
  }

  lemma BornLast(lines: seq<Line>, k: nat)
    requires lines != [] && k < |StackAt(lines, |lines|)|
    requires !(k < |StackAt(lines, |lines| - 1)| && Survives(StackAt(lines, |lines| - 1), Top(lines), k))
    ensures IsBornIn(lines, |lines| - 1, k) && StaysSince(lines, |lines| - 1, k)
  {
    hide Survives;
  }

  lemma HistoryExtends(lines: seq<Line>, b: nat, k: nat)
    requires lines != [] && IsBornIn(Pop(lines), b, k) && StaysSince(Pop(lines), b, k)
    requires k < |StackAt(lines, |lines| - 1)| && Survives(StackAt(lines, |lines| - 1), Top(lines), k)
    ensures IsBornIn(lines, b, k) && StaysSince(lines, b, k) && b < |lines| - 1
  {
    hide Survives, Run;
    PrefixesAgree(lines);
    assert Pop(lines)[..b + 1] == lines[..b + 1];
    forall i | b < i < |lines|
      ensures k < |StackAt(lines, i)| && Survives(StackAt(lines, i), lines[i], k)
    {
      if i < |lines| - 1 {
        assert StackAt(Pop(lines), i) == StackAt(lines, i);
      }
    }
  }

  lemma PrefixesAgree(lines: seq<Line>)
    requires lines != []
    ensures forall i :: 0 <= i < |lines| ==> Pop(lines)[..i] == lines[..i]
  {
  }

  lemma SteadyPrefix(lines: seq<Line>)
    requires lines != [] && IsSteady(lines)
    ensures IsSteady(Pop(lines))
  {
    PrefixesAgree(lines);
  }

  /** A file without its `#else` branches is steady. */
  lemma {:induction false} ErasedIsSteady(lines: seq<Line>)
    ensures IsSteady(Erase(lines))
    decreases |lines|
  {
    hide Update, ReplacesStack;
    if lines != [] {
      var r, e := Pop(lines), Erase(Pop(lines));
      ErasedIsSteady(r);
      if true !in Flags(lines) {
        var f := Erase(lines);
        assert f == e + [Top(lines)];
        KeptDoesNotReplace(lines);
        forall i | 0 <= i < |f|
          ensures !ReplacesStack(Run(f[..i]), f[i].directive)
        {
          if i < |e| {
            assert f[..i] == e[..i] && f[i] == e[i];
          } else {
            assert f[..i] == e;
          }
        }
      } else {
        assert Erase(lines) == e + [] == e;
      }
    }
  }

  lemma KeptDoesNotReplace(lines: seq<Line>)
    requires lines != [] && true !in Flags(lines)
    ensures !ReplacesStack(Run(Erase(Pop(lines))), Top(lines).directive)
  {
    hide Update, Erase;
    var r, d := Pop(lines), Top(lines).directive;
    ErasedSeesNoElse(r);
    var pp := Run(Erase(r)).pp;
    if pp != [] {
      assert Top(pp) in pp;
      if d == ElseDirective {
        RunSimulates(r);
        ElseFlag(Flags(r));
      }
    }
  }

  lemma ElseFlag(fs: seq<bool>)
    ensures true !in FlagStep(fs, ElseDirective) ==> fs == []
  {
    if fs != [] {
      assert SetTop(fs, true)[|fs| - 1];
    }
  }

  /** So the sums hold for every file outside of its `#else` branches, over the file without them. */
  lemma ParensOfFile(lines: seq<Line>, k: nat) returns (b: nat)
    requires true !in Flags(lines) && k < |Run(lines).stack|
    ensures var e := Erase(lines);
            IsBornIn(e, b, k) && StaysSince(e, b, k) && Run(lines).stack[k].openParens == SumOnTop(e, b + 1, k)
  {
    ElseBranchesLeaveNoTrace(lines);
    ErasedIsSteady(lines);
    b := ParensAreSums(Erase(lines), k);
  }

  // ----- Inline assembly -----

  /** A block inside assembly code has an open parenthesis; one just behind it has none. */
  predicate AsmFits(b: BlockVal) {
    (b.asm == InsideAsm ==> b.openParens != 0) && (b.asm == EndAsm ==> b.openParens == 0)
  }

  predicate AllFit(st: seq<BlockVal>) {
    forall i :: 0 <= i < |st| ==> AsmFits(st[i])
  }

  lemma {:induction false} TokensFit(st: seq<BlockVal>, tokens: seq<Token>)
    requires AllFit(st)
    ensures AllFit(ConsumeTokens(st, tokens))
  {
    if tokens != [] {
      TokensFit(st, Pop(tokens));
    }
  }

  lemma LineFits(st: seq<BlockVal>, line: Line)
    requires AllFit(st)
    ensures AllFit(UpdateBlocks(st, line))
  {
    hide PushNamespaces, ConsumeTokens;
    var c := CountParens(st, line);
    assert AllFit(c);
    NamespacesInOrder(c, line.namespaces);
    var o := Opened(st, line);
    forall i | 0 <= i < |o|
      ensures AsmFits(o[i])
    {
      if i < |c| {
        assert o[i] == o[..|c|][i];
      } else {
        var j := i - |c|;
        assert o[|c| + j] == BlockVal(Namespace(line.namespaces[j].name, line.namespaces[j].start), line.namespaces[j].hasBrace, 0, NoAsm, false, "");
      }
    }
    assert AllFit(Declared(st, line));
    TokensFit(Declared(st, line), TailOf(o, line).tokens);
  }

  ghost predicate StateFits(s: State) {
    && AllFit(s.stack)
    && forall i :: 0 <= i < |s.pp| ==> AllFit(s.pp[i].beforeIf) && AllFit(s.pp[i].beforeElse)
  }

  lemma DirectiveFits(s: State, d: Directive)
    requires StateFits(s)
    ensures StateFits(UpdatePreprocessor(s, d))
  {
    hide AllFit;
    assert AllFit([]) by { NothingFits(); }
  }

  lemma NothingFits()
    ensures AllFit([])
  {
  }

  /** After any file, in the live stack and in all saved ones. */
  lemma {:induction false} AsmFitsAlways(lines: seq<Line>)
    ensures StateFits(Run(lines))
  {
    if lines != [] {
      hide AllFit, UpdateBlocks, UpdatePreprocessor;
      AsmFitsAlways(Pop(lines));
      var s := Run(Pop(lines));
      DirectiveFits(s, Top(lines).directive);
      LineFits(UpdatePreprocessor(s, Top(lines).directive).stack, Top(lines));
    } else {
      NothingFits();
    }
  }
}
