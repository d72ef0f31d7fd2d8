/**
 `NestingState` of cpplint with its block objects on the heap.

 The blocks are updated in place, and copies of whole stacks are kept per `#if` and `#else`.
 `Valid` says that no block object is held twice, by the live stack or by any saved one;
 every method keeps it, and so every method acts on the values as `Nesting.Update` does.
 */
module NestingStates {
  import opened Options
  import opened Sequences
  import opened Nesting

  class Block {
    const kind: Kind
    var seenOpenBrace: bool
    var openParens: int
    var asm: Asm
    var isDerived: bool
    var access: string

    constructor (kind: Kind, seenOpenBrace: bool)
      ensures Val() == NewBlock(kind, seenOpenBrace)
    {
      this.kind := kind;
      this.seenOpenBrace := seenOpenBrace;
      openParens := 0;
      asm := NoAsm;
      isDerived := false;
      access := if kind.Class? then if kind.isStruct then "public" else "private" else "";
    }

    constructor Copy(b: Block)
      ensures Val() == b.Val()
    {
      kind := b.kind;
      seenOpenBrace := b.seenOpenBrace;
      openParens := b.openParens;
      asm := b.asm;
      isDerived := b.isDerived;
      access := b.access;
    }

    ghost function Val(): BlockVal
      reads this
    {
      BlockVal(kind, seenOpenBrace, openParens, asm, isDerived, access)
    }
  }

  ghost function Vals(s: seq<Block>): (v: seq<BlockVal>)
    reads s
    ensures |v| == |s|
    ensures forall i :: 0 <= i < |s| ==> v[i] == s[i].Val()
  {
    seq(|s|, i requires 0 <= i < |s| reads s => s[i].Val())
  }

  /** `copy.deepcopy` of a stack: new objects, same values. */
  method DeepCopy(s: seq<Block>, ghost held: set<Block>) returns (t: seq<Block>)
    ensures Vals(t) == Vals(s)
    ensures NoDuplicates(t)
    ensures fresh(Blocks(t)) && Blocks(t) !! held
  {
    t := [];
    for i := 0 to |s|
      invariant |t| == i
      invariant forall k :: 0 <= k < i ==> t[k].Val() == s[k].Val()
      invariant NoDuplicates(t)
      invariant forall b :: b in t ==> fresh(b)
    {
      var b := new Block.Copy(s[i]);
      t := t + [b];
    }
  }

  ghost function Blocks(s: seq<Block>): set<Block> {
    set b | b in s
  }

  /** `_PreprocessorInfo`: the stacks saved for one open `#if`. */
  datatype Saved = Saved(beforeIf: seq<Block>, beforeElse: seq<Block>, seenElse: bool) {
    ghost function Held(): set<Block> {
      Blocks(beforeIf) + Blocks(beforeElse)
    }

    ghost predicate HoldsOnce() {
      NoDuplicates(beforeIf) && NoDuplicates(beforeElse) && Blocks(beforeIf) !! Blocks(beforeElse)
    }

    ghost function Val(): SavedVal
      reads beforeIf, beforeElse
    {
      SavedVal(Vals(beforeIf), Vals(beforeElse), seenElse)
    }
  }

  ghost function HeldBy(pp: seq<Saved>): set<Block> {
    set i, b | 0 <= i < |pp| && b in pp[i].Held() :: b
  }

  ghost function SavedVals(pp: seq<Saved>): (v: seq<SavedVal>)
    reads HeldBy(pp)
    ensures |v| == |pp|
    ensures forall i :: 0 <= i < |pp| ==> v[i] == pp[i].Val()
  {
    if pp == [] then [] else
      assert forall b :: b in HeldBy(Pop(pp)) ==> b in HeldBy(pp);
      assert forall b :: b in Top(pp).Held() ==> b in HeldBy(pp);
      SavedVals(Pop(pp)) + [Top(pp).Val()]
  }

  lemma SavedValsPush(pp: seq<Saved>, saved: Saved)
    ensures SavedVals(pp + [saved]) == SavedVals(pp) + [saved.Val()]
  {
    assert Pop(pp + [saved]) == pp;
  }

  /** No block is held twice, by the live stack or by a saved one. */
  ghost predicate AllApart(stack: seq<Block>, pp: seq<Saved>) {
    && NoDuplicates(stack)
    && (forall i :: 0 <= i < |pp| ==> pp[i].HoldsOnce() && Blocks(stack) !! pp[i].Held())
    && (forall i, j :: 0 <= i < j < |pp| ==> pp[i].Held() !! pp[j].Held())
  }

  lemma ApartPush(stack: seq<Block>, pp: seq<Saved>, saved: Saved)
    requires AllApart(stack, pp) && saved.HoldsOnce()
    requires saved.Held() !! Blocks(stack) && saved.Held() !! HeldBy(pp)
    ensures AllApart(stack, pp + [saved]) && HeldBy(pp + [saved]) == HeldBy(pp) + saved.Held()
  {
    var pp' := pp + [saved];
    assert forall b :: b in saved.Held() ==> b in pp'[|pp|].Held();
    assert forall i, b :: 0 <= i < |pp| && b in pp[i].Held() ==> b in pp'[i].Held();
    assert forall i, b :: 0 <= i < |pp| && b in pp[i].Held() ==> b in HeldBy(pp);
  }

  lemma ApartPop(stack: seq<Block>, pp: seq<Saved>)
    requires AllApart(stack, pp) && pp != []
    ensures AllApart(stack, Pop(pp)) && AllApart(Top(pp).beforeElse, Pop(pp))
    ensures HeldBy(pp) == HeldBy(Pop(pp)) + Top(pp).Held()
    ensures Top(pp).Held() !! HeldBy(Pop(pp)) && Top(pp).HoldsOnce() && Blocks(stack) !! Top(pp).Held()
  {
    var qq := Pop(pp);
    assert forall i :: 0 <= i < |qq| ==> qq[i] == pp[i];
    assert forall b :: b in Top(pp).Held() ==> b in pp[|pp| - 1].Held();
    assert forall i, b :: 0 <= i < |qq| && b in qq[i].Held() ==> b in pp[i].Held();
  }

  lemma ApartLive(stack: seq<Block>, pp: seq<Saved>, stack': seq<Block>)
    requires AllApart(stack, pp) && NoDuplicates(stack') && Blocks(stack') !! HeldBy(pp)
    ensures AllApart(stack', pp)
  {
    assert forall i, b :: 0 <= i < |pp| && b in pp[i].Held() ==> b in HeldBy(pp);
  }

  class NestingState {
    var stack: seq<Block>
    var previousStackTop: Block?
    var ppStack: seq<Saved>

    ghost predicate Valid()
      reads this`stack, this`ppStack
    {
      AllApart(stack, ppStack)
    }

    ghost function View(): State
      reads this`stack, this`ppStack, stack, HeldBy(ppStack)
    {
      State(Vals(stack), SavedVals(ppStack))
    }

    /** All blocks held, live or saved. */
    ghost function Holds(): set<Block>
      reads this`stack, this`ppStack
    {
      Blocks(stack) + HeldBy(ppStack)
    }

    constructor ()
      ensures Valid() && View() == EMPTY
    {
      stack := [];
      previousStackTop := null;
      ppStack := [];
    }

    // ----- Preprocessor directives -----

    method BeginIf()
      requires Valid()
      modifies this`ppStack
      ensures Valid()
      ensures View() == Nesting.UpdatePreprocessor(old(View()), IfDirective)
      ensures fresh(HeldBy(ppStack) - old(HeldBy(ppStack)))
    {
      hide AllApart, HeldBy, SavedVals, Vals;
      ghost var held, saves := HeldBy(ppStack), SavedVals(ppStack);
      var copy := DeepCopy(stack, held);
      var saved := Saved(copy, [], false);
      ApartPush(stack, ppStack, saved);
      SavedValsPush(ppStack, saved);
      ppStack := ppStack + [saved];
    }

    method BeginElse()
      requires Valid()
      modifies this`ppStack, this`stack
      ensures Valid()
      ensures View() == Nesting.UpdatePreprocessor(old(View()), ElseDirective)
      ensures fresh(Blocks(stack) - old(Blocks(stack))) && fresh(HeldBy(ppStack) - old(HeldBy(ppStack)))
      ensures if old(ppStack) == [] then stack == old(stack) else fresh(Blocks(stack))
    {
      hide AllApart, HeldBy, Vals, Blocks, SavedVals, SetTop;
      ghost var before := View();
      if ppStack != [] {
        if !Top(ppStack).seenElse {
          SaveBeforeElse();
        }
        RestoreBeforeIf();
        SavedTop(old(ppStack));
        assert View().stack == Top(before.pp).beforeIf;
      }
    }

    method RestoreBeforeIf()
      requires Valid() && ppStack != []
      modifies this`stack
      ensures Valid()
      ensures Vals(stack) == Top(SavedVals(ppStack)).beforeIf
      ensures fresh(Blocks(stack))
    {
      hide AllApart, HeldBy, Vals;
      ghost var held := HeldBy(ppStack);
      var live := DeepCopy(Top(ppStack).beforeIf, held);
      ApartLive(stack, ppStack, live);
      stack := live;
    }

    /** The first `#else` or `#elif`: remember the stack up to this point. */
    method SaveBeforeElse()
      requires Valid() && ppStack != []
      modifies this`ppStack
      ensures Valid() && |ppStack| == |old(ppStack)|
      ensures Top(ppStack).beforeIf == old(Top(ppStack).beforeIf)
      ensures SavedVals(ppStack) ==
              SetTop(old(SavedVals(ppStack)),
                     old(Top(ppStack)).Val().(beforeElse := Vals(stack), seenElse := true))
      ensures fresh(HeldBy(ppStack) - old(HeldBy(ppStack)))
    {
      hide AllApart, HeldBy, SavedVals, Vals;
      ghost var held, saves := HeldBy(ppStack), SavedVals(ppStack);
      ApartPop(stack, ppStack);
      ghost var below := SavedVals(Pop(ppStack));
      var copy := DeepCopy(stack, held);
      var saved := Top(ppStack).(seenElse := true, beforeElse := copy);
      ApartPush(stack, Pop(ppStack), saved);
      SavedValsPush(Pop(ppStack), saved);
      assert SetTop(ppStack, saved) == Pop(ppStack) + [saved];
      ppStack := SetTop(ppStack, saved);
      assert SavedVals(ppStack) == below + [saved.Val()];
    }

    /** The saved stack is taken back without copying it. */
    method EndIf()
      requires Valid()
      modifies this`ppStack, this`stack
      ensures Valid()
      ensures View() == Nesting.UpdatePreprocessor(old(View()), EndifDirective)
      ensures Blocks(stack) + HeldBy(ppStack) <= old(Blocks(stack) + HeldBy(ppStack))
      ensures if ReplacesStack(old(View()), EndifDirective) then Blocks(stack) !! old(Blocks(stack)) else stack == old(stack)
    {
      if ppStack != [] {
        ApartPop(stack, ppStack);
        if Top(ppStack).seenElse {
          stack := Top(ppStack).beforeElse;
        }
        ppStack := Pop(ppStack);
      }
    }

    method UpdatePreprocessor(d: Directive)
      requires Valid()
      modifies this`ppStack, this`stack
      ensures Valid()
      ensures View() == Nesting.UpdatePreprocessor(old(View()), d)
      ensures forall b :: b in Holds() && b !in old(Holds()) ==> fresh(b)
      ensures if ReplacesStack(old(View()), d) then Blocks(stack) !! old(Blocks(stack)) else stack == old(stack)
    {
      hide AllApart, HeldBy, Vals, SavedVals, Nesting.UpdatePreprocessor;
      match d
      case IfDirective => BeginIf();
      case ElseDirective => BeginElse();
      case EndifDirective => EndIf();
      case NoDirective => NoDirectiveKeeps(View());
    }

    // ----- The rest of a line: the live stack only -----

    predicate SeenOpenBrace()
      reads this, stack
      ensures SeenOpenBrace() == Nesting.SeenOpenBrace(Vals(stack))
    {
      stack == [] || Top(stack).seenOpenBrace
    }

    method CountParens(line: Line)
      requires NoDuplicates(stack)
      modifies stack
      ensures Vals(stack) == Nesting.CountParens(old(Vals(stack)), line)
    {
      if stack != [] {
        var inner := Top(stack);
        inner.openParens := inner.openParens + line.depthChange;
        if inner.asm == NoAsm || inner.asm == EndAsm {
          if line.depthChange != 0 && inner.openParens == 1 && line.asm {
            inner.asm := InsideAsm;
          } else {
            inner.asm := NoAsm;
          }
        } else if inner.asm == InsideAsm && inner.openParens == 0 {
          inner.asm := EndAsm;
        }
      }
    }

    /** A new block goes on top; every other block keeps its value. */
    method Push(b: Block)
      requires NoDuplicates(stack) && b !in stack
      modifies this`stack
      ensures NoDuplicates(stack) && stack == old(stack) + [b]
      ensures Vals(stack) == old(Vals(stack)) + [b.Val()]
    {
      stack := stack + [b];
    }

    method DropTop()
      requires NoDuplicates(stack) && stack != []
      modifies this`stack
      ensures NoDuplicates(stack) && stack == Pop(old(stack))
      ensures Vals(stack) == Pop(old(Vals(stack)))
    {
      stack := Pop(stack);
    }

    method MarkOpenBrace()
      requires NoDuplicates(stack) && stack != []
      modifies Top(stack)
      ensures Vals(stack) == SetTop(old(Vals(stack)), old(Top(stack).Val()).(seenOpenBrace := true))
    {
      Top(stack).seenOpenBrace := true;
    }

    method PushNamespaces(decls: seq<NamespaceDecl>)
      requires NoDuplicates(stack)
      modifies this`stack
      ensures NoDuplicates(stack)
      ensures Vals(stack) == Nesting.PushNamespaces(old(Vals(stack)), decls)
      ensures fresh(Blocks(stack) - old(Blocks(stack))) && old(stack) <= stack
    {
      hide Vals;
      var i := 0;
      assert decls[..0] == [];
      while i < |decls|
        invariant 0 <= i <= |decls|
        invariant NoDuplicates(stack)
        invariant Vals(stack) == Nesting.PushNamespaces(old(Vals(stack)), decls[..i])
        invariant fresh(Blocks(stack) - old(Blocks(stack))) && old(stack) <= stack
      {
        var b := new Block(Namespace(decls[i].name, decls[i].start), false);
        if decls[i].hasBrace {
          b.seenOpenBrace := true;
        }
        Push(b);
        assert Pop(decls[..i + 1]) == decls[..i];
        i := i + 1;
      }
      assert decls[..i] == decls;
    }

    method DeclareClass(line: Line) returns (tail: Tail)
      requires NoDuplicates(stack)
      modifies this`stack
      ensures NoDuplicates(stack)
      ensures Vals(stack) == Nesting.DeclareClass(old(Vals(stack)), line)
      ensures tail == TailOf(old(Vals(stack)), line)
      ensures fresh(Blocks(stack) - old(Blocks(stack))) && old(stack) <= stack
    {
      tail := line.tail;
      if line.classDecl.Some? && (stack == [] || Top(stack).openParens == 0) {
        if !line.classDecl.value.inTemplateArguments {
          var b := new Block(line.classDecl.value.kind, false);
          Push(b);
          tail := line.classDecl.value.tail;
        }
      }
    }

    method CheckBegin(line: Line)
      requires NoDuplicates(stack)
      modifies stack
      ensures Vals(stack) == Nesting.CheckBegin(old(Vals(stack)), line)
    {
      if !SeenOpenBrace() && Top(stack).kind.Class? && line.bareColon {
        Top(stack).isDerived := true;
      }
    }

    method SetAccess(access: Option<string>)
      requires NoDuplicates(stack)
      modifies stack
      ensures Vals(stack) == Nesting.SetAccess(old(Vals(stack)), access)
    {
      if stack != [] && Top(stack).kind.Class? && access.Some? {
        Top(stack).access := access.value;
      }
    }

    method ConsumeToken(t: Token)
      requires NoDuplicates(stack)
      modifies this`stack, stack
      ensures NoDuplicates(stack)
      ensures Vals(stack) == Nesting.ConsumeToken(old(Vals(stack)), t)
      ensures fresh(Blocks(stack) - old(Blocks(stack)))
      // One block is pushed or dropped, if any, and a dropped block keeps its value.
      ensures PushedOrDropped(old(stack), stack)
      ensures forall b :: b in old(stack) && b !in stack ==> b.Val() == old(b.Val())
    {
      hide Vals;
      match t
      case OpenBrace(externC, asm) =>
        if !SeenOpenBrace() {
          MarkOpenBrace();
        } else if externC {
          var b := new Block(ExternC, true);
          Push(b);
        } else {
          var b := new Block(Plain, true);
          if asm {
            b.asm := BlockAsm;
          }
          Push(b);
        }
      case Semicolon =>
        if !SeenOpenBrace() {
          DropTop();
        }
      case CloseParen =>
        if !SeenOpenBrace() {
          DropTop();
        }
      case CloseBrace =>
        if stack != [] {
          DropTop();
        }
    }

    /** The block `b` at index `k` is followed through the line. */
    method ConsumeTokens(tokens: seq<Token>, ghost b: Block?, ghost k: nat)
      requires NoDuplicates(stack) && (b != null ==> k < |stack| && stack[k] == b)
      modifies this`stack, stack
      ensures NoDuplicates(stack)
      ensures Vals(stack) == Nesting.ConsumeTokens(old(Vals(stack)), tokens)
      ensures fresh(Blocks(stack) - old(Blocks(stack)))
      ensures b != null ==> b.Val() == TokensFate(old(Vals(stack)), tokens, k).val
    {
      hide Vals, Nesting.ConsumeToken;
      var i := 0;
      ghost var vals := Vals(stack);
      assert tokens[..0] == [];
      while i < |tokens|
        invariant 0 <= i <= |tokens|
        invariant NoDuplicates(stack)
        invariant Vals(stack) == Nesting.ConsumeTokens(vals, tokens[..i])
        invariant fresh(Blocks(stack) - old(Blocks(stack)))
        invariant b != null ==> k < |vals| && HasFate(b, k, stack, TokensFate(vals, tokens[..i], k))
      {
        ghost var before := stack;
        ConsumeToken(tokens[i]);
        assert Pop(tokens[..i + 1]) == tokens[..i];
        if b != null && TokensFate(vals, tokens[..i], k).live {
          StillAt(before, stack, b, k);
        }
        i := i + 1;
      }
      assert tokens[..i] == tokens;
    }

    /** Parentheses, then the namespace and class heads at the start of the line. */
    method ReadHead(line: Line) returns (tail: Tail)
      requires NoDuplicates(stack)
      modifies this`stack, stack
      ensures NoDuplicates(stack)
      ensures var s := Opened(old(Vals(stack)), line);
              Vals(stack) == Nesting.DeclareClass(s, line) && tail == TailOf(s, line)
      ensures fresh(Blocks(stack) - old(Blocks(stack))) && old(stack) <= stack
    {
      hide Vals, Nesting.CountParens, Nesting.PushNamespaces, Nesting.DeclareClass, Nesting.TailOf, NoDuplicates;
      CountParens(line);
      PushNamespaces(line.namespaces);
      tail := DeclareClass(line);
    }

    /** Nothing happens to blocks held elsewhere, and none of them enters the live stack. */
    method UpdateBlocks(line: Line, ghost held: set<Block>)
      requires NoDuplicates(stack) && held !! Blocks(stack)
      modifies this`stack, stack
      ensures NoDuplicates(stack) && held !! Blocks(stack) && unchanged(held)
      ensures Vals(stack) == Nesting.UpdateBlocks(old(Vals(stack)), line)
      ensures fresh(Blocks(stack) - old(Blocks(stack)))
      ensures old(stack) != [] ==> Top(old(stack)).Val() == TopAfter(old(Vals(stack)), line)
    {
      hide Vals, Opened, Nesting.DeclareClass, Nesting.TailOf, TokensFate,
        Nesting.CheckBegin, Nesting.SetAccess, Nesting.ConsumeTokens, NoDuplicates;
      ghost var b := if stack != [] then Top(stack) else null;
      ghost var k := if stack != [] then |stack| - 1 else 0;
      var tail := ReadHead(line);
      CheckBegin(line);
      SetAccess(tail.access);
      assert b != null ==> stack[k] == b;
      ConsumeTokens(tail.tokens, b, k);
    }

    // ----- One line, and a whole file -----

    method Update(line: Line)
      requires Valid()
      modifies this, Holds()
      ensures Valid()
      ensures View() == Nesting.Update(old(View()), line)
      ensures forall b :: b in Holds() && b !in old(Holds()) ==> fresh(b)
      // The previous top is remembered by reference, with the value it has after the line.
      ensures previousStackTop == if old(stack) != [] then Top(old(stack)) else null
      ensures previousStackTop != null ==> previousStackTop.Val() == RememberedVal(old(View()), line)
    {
      hide AllApart, HeldBy, Vals, SavedVals, Nesting.Update, Holds, RememberedVal;
      RememberTop();
      UpdateStacks(line);
    }

    method RememberTop()
      modifies this`previousStackTop
      ensures previousStackTop == if stack != [] then Top(stack) else null
      ensures View() == old(View())
    {
      previousStackTop := if stack != [] then Top(stack) else null;
    }

    /** Directive and blocks of a line, and the value the block on top before has after it. */
    method UpdateStacks(line: Line)
      requires Valid()
      modifies this`stack, this`ppStack, Holds()
      ensures Valid()
      ensures View() == Nesting.Update(old(View()), line)
      ensures forall b :: b in Holds() && b !in old(Holds()) ==> fresh(b)
      ensures old(stack) != [] ==> Top(old(stack)).Val() == RememberedVal(old(View()), line)
    {
      hide AllApart, HeldBy, Vals, SavedVals, Nesting.UpdatePreprocessor, Nesting.UpdateBlocks, TopAfter, ReplacesStack;
      ghost var top := if stack != [] then Top(stack) else null;
      ghost var replaced := ReplacesStack(View(), line.directive);
      UpdatePreprocessor(line.directive);
      ghost var live, held, saves := stack, HeldBy(ppStack), SavedVals(ppStack);
      ghost var mid := Holds();
      ApartFacts(stack, ppStack);
      assert forall b :: b in stack ==> b in mid && (b in old(Holds()) || fresh(b));
      UpdateBlocks(line, if replaced && top != null then held + {top} else held);
      assert SavedVals(ppStack) == saves;
      ApartLive(live, ppStack, stack);
      assert forall b :: b in Holds() ==> b in mid || b in Blocks(stack) - Blocks(live);
    }

    method ProcessFile(lines: seq<Line>)
      requires Valid() && View() == EMPTY
      modifies this, Holds()
      ensures Valid()
      ensures View() == Run(lines)
    {
      hide AllApart, HeldBy, Vals, SavedVals, Nesting.Update, Holds;
      assert lines[..0] == [];
      for i := 0 to |lines|
        invariant Valid()
        invariant View() == Run(lines[..i])
        invariant forall b :: b in Holds() && b !in old(Holds()) ==> fresh(b)
      {
        Update(lines[i]);
        assert Pop(lines[..i + 1]) == lines[..i];
      }
      assert lines[..|lines|] == lines;
    }
  }

  /** Block `b` is still block `k` of the stack, or has left it for good, with the value its fate says. */
  ghost predicate HasFate(b: Block, k: nat, stack: seq<Block>, f: Fate)
    reads b
  {
    b.Val() == f.val && if f.live then k < |stack| && stack[k] == b else b !in stack
  }

  predicate PushedOrDropped(before: seq<Block>, after: seq<Block>) {
    before <= after || (before != [] && after == Pop(before))
  }

  /** Pushing and dropping leave a block where it is, until it is dropped itself. */
  lemma StillAt(before: seq<Block>, after: seq<Block>, b: Block, k: nat)
    requires NoDuplicates(before) && k < |before| && before[k] == b
    requires PushedOrDropped(before, after)
    ensures if k < |after| then after[k] == b else b !in after
  {
  }

  lemma SavedTop(pp: seq<Saved>)
    requires pp != []
    ensures Top(SavedVals(pp)) == Top(pp).Val()
  {
  }

  lemma NoDirectiveKeeps(s: State)
    ensures Nesting.UpdatePreprocessor(s, NoDirective) == s
  {
  }

  lemma ApartFacts(stack: seq<Block>, pp: seq<Saved>)
    requires AllApart(stack, pp)
    ensures NoDuplicates(stack) && Blocks(stack) !! HeldBy(pp)
  {
  }
}
