/**
 What `NestingState` of cpplint computes, on values: the stack of open blocks, the stacks saved
 at `#if` and `#else`, and the theorem that `#else` branches leave no trace.

 A line is given as the facts `Update` looks up in it: which directive it is, how it changes the
 parenthesis depth, which declarations it starts with and which braces follow.
 */
module Nesting {
  import opened Options
  import opened Sequences

  datatype Asm = NoAsm | InsideAsm | EndAsm | BlockAsm

  /** What kind of block was opened; the fields here never change after construction. */
  datatype Kind =
    | Plain
    | ExternC
    | Namespace(name: string, start: nat)
    | Class(name: string, start: nat, isStruct: bool, indent: nat, lastLine: nat)

  datatype BlockVal = BlockVal(
    kind: Kind, seenOpenBrace: bool, openParens: int, asm: Asm, isDerived: bool, access: string)

  datatype SavedVal = SavedVal(beforeIf: seq<BlockVal>, beforeElse: seq<BlockVal>, seenElse: bool)

  datatype State = State(stack: seq<BlockVal>, pp: seq<SavedVal>)

  datatype Directive = IfDirective | ElseDirective | EndifDirective | NoDirective

  datatype NamespaceDecl = NamespaceDecl(name: string, start: nat, hasBrace: bool)

  /** A class head; `tail` is what is left of the line if the declaration is accepted. */
  datatype ClassDecl = ClassDecl(kind: Kind, inTemplateArguments: bool, tail: Tail)

  datatype Tail = Tail(access: Option<string>, tokens: seq<Token>)

  datatype Token = OpenBrace(externC: bool, asm: bool) | Semicolon | CloseParen | CloseBrace

  datatype Line = Line(
    directive: Directive,
    depthChange: int,
    asm: bool,
    namespaces: seq<NamespaceDecl>,
    classDecl: Option<ClassDecl>,
    bareColon: bool,
    tail: Tail)

  const EMPTY := State([], [])

  // ----- Preprocessor directives -----

  function UpdatePreprocessor(s: State, d: Directive): State {
    match d
    case IfDirective => s.(pp := s.pp + [SavedVal(s.stack, [], false)])
    case ElseDirective =>
      if s.pp == [] then s
      else
        var top := Top(s.pp);
        State(top.beforeIf,
              if top.seenElse then s.pp else SetTop(s.pp, top.(beforeElse := s.stack, seenElse := true)))
    case EndifDirective =>
      if s.pp == [] then s
      else State(if Top(s.pp).seenElse then Top(s.pp).beforeElse else s.stack, Pop(s.pp))
    case NoDirective => s
  }

  // ----- The rest of a line: the live stack only -----

  predicate SeenOpenBrace(st: seq<BlockVal>) {
    st == [] || Top(st).seenOpenBrace
  }

  function NewBlock(kind: Kind, seenOpenBrace: bool): BlockVal {
    BlockVal(kind, seenOpenBrace, 0, NoAsm, false,
             if kind.Class? then if kind.isStruct then "public" else "private" else "")
  }

  function NextAsm(asm: Asm, openParens: int, line: Line): Asm {
    if asm == NoAsm || asm == EndAsm then
      if line.depthChange != 0 && openParens == 1 && line.asm then InsideAsm else NoAsm
    else if asm == InsideAsm && openParens == 0 then EndAsm
    else asm
  }

  function CountParens(st: seq<BlockVal>, line: Line): seq<BlockVal> {
    if st == [] then st
    else
      var b := Top(st);
      var n := b.openParens + line.depthChange;
      SetTop(st, b.(openParens := n, asm := NextAsm(b.asm, n, line)))
  }

  function PushNamespaces(st: seq<BlockVal>, decls: seq<NamespaceDecl>): seq<BlockVal> {
    if decls == [] then st
    else
      var d := decls[|decls| - 1];
      PushNamespaces(st, Pop(decls)) + [NewBlock(Namespace(d.name, d.start), d.hasBrace)]
  }

  predicate AcceptsClass(st: seq<BlockVal>, line: Line) {
    && line.classDecl.Some?
    && (st == [] || Top(st).openParens == 0)
    && !line.classDecl.value.inTemplateArguments
  }

  function DeclareClass(st: seq<BlockVal>, line: Line): seq<BlockVal> {
    if AcceptsClass(st, line) then st + [NewBlock(line.classDecl.value.kind, false)] else st
  }

  function TailOf(st: seq<BlockVal>, line: Line): Tail {
    if AcceptsClass(st, line) then line.classDecl.value.tail else line.tail
  }

  function CheckBegin(st: seq<BlockVal>, line: Line): seq<BlockVal> {
    if !SeenOpenBrace(st) && Top(st).kind.Class? && line.bareColon then
      SetTop(st, Top(st).(isDerived := true))
    else st
  }

  function SetAccess(st: seq<BlockVal>, access: Option<string>): seq<BlockVal> {
    if st != [] && Top(st).kind.Class? && access.Some? then SetTop(st, Top(st).(access := access.value)) else st
  }

  function ConsumeToken(st: seq<BlockVal>, t: Token): seq<BlockVal> {
    match t
    case OpenBrace(externC, asm) =>
      if !SeenOpenBrace(st) then SetTop(st, Top(st).(seenOpenBrace := true))
      else if externC then st + [NewBlock(ExternC, true)]
      else st + [NewBlock(Plain, true).(asm := if asm then BlockAsm else NoAsm)]
    case Semicolon => if !SeenOpenBrace(st) then Pop(st) else st
    case CloseParen => if !SeenOpenBrace(st) then Pop(st) else st
    case CloseBrace => if st != [] then Pop(st) else st
  }

  function ConsumeTokens(st: seq<BlockVal>, tokens: seq<Token>): seq<BlockVal> {
    if tokens == [] then st else ConsumeToken(ConsumeTokens(st, Pop(tokens)), Top(tokens))
  }

  /** Parentheses and namespace heads. */
  function Opened(st: seq<BlockVal>, line: Line): seq<BlockVal> {
    PushNamespaces(CountParens(st, line), line.namespaces)
  }

  /** Everything up to the braces of the line. */
  function Declared(st: seq<BlockVal>, line: Line): seq<BlockVal> {
    var s1 := Opened(st, line);
    SetAccess(CheckBegin(DeclareClass(s1, line), line), TailOf(s1, line).access)
  }

  function UpdateBlocks(st: seq<BlockVal>, line: Line): seq<BlockVal> {
    ConsumeTokens(Declared(st, line), TailOf(Opened(st, line), line).tokens)
  }

  function Update(s: State, line: Line): State {
    var p := UpdatePreprocessor(s, line.directive);
    p.(stack := UpdateBlocks(p.stack, line))
  }

  /** The state after a whole file. */
  function Run(lines: seq<Line>): State {
    if lines == [] then EMPTY else Update(Run(Pop(lines)), Top(lines))
  }

  // ----- Erasing the #else branches -----

  /** For each `#if` that is open, whether its `#else` or `#elif` has been passed. */
  function FlagStep(fs: seq<bool>, d: Directive): seq<bool> {
    match d
    case IfDirective => fs + [false]
    case ElseDirective => if fs == [] then fs else SetTop(fs, true)
    case EndifDirective => if fs == [] then fs else Pop(fs)
    case NoDirective => fs
  }

  function Flags(lines: seq<Line>): seq<bool> {
    if lines == [] then [] else FlagStep(Flags(Pop(lines)), Top(lines).directive)
  }

  /** The file without its `#else` and `#elif` branches: from each such line up to its `#endif`. */
  function Erase(lines: seq<Line>): seq<Line> {
    if lines == [] then []
    else Erase(Pop(lines)) + if true in Flags(lines) then [] else [Top(lines)]
  }

  ghost predicate FlagsAgree(pp: seq<SavedVal>, fs: seq<bool>) {
    && |pp| == |fs|
    && (forall i :: 0 <= i < |fs| ==> pp[i].seenElse == fs[i])
    && (forall i :: 0 <= i < |fs| && !fs[i] ==> pp[i].beforeElse == [])
  }

  lemma FlagsAgreeStep(o: State, fs: seq<bool>, line: Line)
    requires FlagsAgree(o.pp, fs)
    ensures FlagsAgree(Update(o, line).pp, FlagStep(fs, line.directive))
  {
    hide UpdateBlocks;
  }

  /**
   The states of the two runs, `o` on the file and `e` on the erased file. Outside every branch
   they are the same. Inside one, the erased run is waiting at the outermost `#else`, with the
   stack that was saved there.
   */
  ghost predicate Simulates(o: State, e: State, fs: seq<bool>) {
    && FlagsAgree(o.pp, fs)
    && (true !in fs ==> o == e)
    && (true in fs ==> exists k :: Outermost(fs, k) && e == Waiting(o, k))
  }

  predicate Outermost(fs: seq<bool>, k: nat) {
    k < |fs| && fs[k] && true !in fs[..k]
  }

  function Waiting(o: State, k: nat): State
    requires k < |o.pp|
  {
    State(o.pp[k].beforeElse, o.pp[..k] + [SavedVal(o.pp[k].beforeIf, [], false)])
  }

  lemma SimulatesStep(o: State, e: State, fs: seq<bool>, line: Line)
    requires Simulates(o, e, fs)
    ensures var fs' := FlagStep(fs, line.directive);
            Simulates(Update(o, line), if true in fs' then e else Update(e, line), fs')
  {
    var fs' := FlagStep(fs, line.directive);
    if true in fs {
      StepInside(o, e, fs, line);
    } else {
      StepOutside(o, fs, line);
    }
  }

  lemma StepOutside(o: State, fs: seq<bool>, line: Line)
    requires Simulates(o, o, fs) && true !in fs
    ensures var fs' := FlagStep(fs, line.directive);
            Simulates(Update(o, line), if true in fs' then o else Update(o, line), fs')
  {
    hide UpdateBlocks, FlagsAgree;
    FlagsAgreeStep(o, fs, line);
    FlagsAgreeLength(o.pp, fs);
    var fs', o' := FlagStep(fs, line.directive), Update(o, line);
    if line.directive == ElseDirective && fs != [] {
      var k := |fs| - 1;
      assert fs'[k];
      assert fs'[..k] == fs[..k];
      assert Outermost(fs', k);
      assert o.pp[k] == SavedVal(o.pp[k].beforeIf, [], false);
      assert o.pp == o.pp[..k] + [o.pp[k]];
      assert o == Waiting(o', k);
    }
  }

  lemma StepInside(o: State, e: State, fs: seq<bool>, line: Line)
    requires Simulates(o, e, fs) && true in fs
    ensures var fs' := FlagStep(fs, line.directive);
            Simulates(Update(o, line), if true in fs' then e else Update(e, line), fs')
  {
    hide UpdateBlocks, FlagsAgree;
    FlagsAgreeStep(o, fs, line);
    var fs' := FlagStep(fs, line.directive);
    FlagsAgreeLength(o.pp, fs);
    FlagsAgreeLength(Update(o, line).pp, fs');
    var k: nat :| Outermost(fs, k) && e == Waiting(o, k);
    if k < |fs'| {
      StaysWaiting(o, fs, k, line);
      assert fs'[k];
    } else {
      assert fs' == fs[..k];
      LeavesBranch(o, fs, k, line);
    }
  }

  lemma FlagsAgreeLength(pp: seq<SavedVal>, fs: seq<bool>)
    requires FlagsAgree(pp, fs)
    ensures |pp| == |fs| && forall i :: 0 <= i < |fs| ==> pp[i].seenElse == fs[i]
    ensures forall i :: 0 <= i < |fs| && !fs[i] ==> pp[i].beforeElse == []
  {
  }

  lemma StaysWaiting(o: State, fs: seq<bool>, k: nat, line: Line)
    requires FlagsAgree(o.pp, fs) && Outermost(fs, k) && k < |FlagStep(fs, line.directive)|
    ensures var fs', o' := FlagStep(fs, line.directive), Update(o, line);
            Outermost(fs', k) && k < |o'.pp| && Waiting(o', k) == Waiting(o, k)
  {
    hide UpdateBlocks;
    var fs', o' := FlagStep(fs, line.directive), Update(o, line);
    assert fs'[..k] == fs[..k];
    assert o'.pp[..k] == o.pp[..k] && o'.pp[k] == o.pp[k];
  }

  lemma LeavesBranch(o: State, fs: seq<bool>, k: nat, line: Line)
    requires FlagsAgree(o.pp, fs) && Outermost(fs, k) && k >= |FlagStep(fs, line.directive)|
    ensures Update(Waiting(o, k), line) == Update(o, line)
  {
    hide UpdateBlocks;
    assert Pop(Waiting(o, k).pp) == o.pp[..k] == Pop(o.pp);
  }

  lemma {:induction false} RunSimulates(lines: seq<Line>)
    ensures Simulates(Run(lines), Run(Erase(lines)), Flags(lines))
  {
    if lines != [] {
      RunSimulates(Pop(lines));
      SimulatesStep(Run(Pop(lines)), Run(Erase(Pop(lines))), Flags(Pop(lines)), Top(lines));
      assert Pop(Erase(Pop(lines)) + [Top(lines)]) == Erase(Pop(lines));
      assert Erase(Pop(lines)) + [] == Erase(Pop(lines));
    }
  }

  /**
   At every line outside the `#else` and `#elif` branches, in particular right after each
   outermost `#endif`, the live stack and the saved stacks are those of the file with all such
   branches erased. This needs no assumption on how the directives nest.
   */
  lemma ElseBranchesLeaveNoTrace(lines: seq<Line>)
    requires true !in Flags(lines)
    ensures Run(lines) == Run(Erase(lines))
  {
    RunSimulates(lines);
  }

  /** The erased file is read without ever passing an `#else` of an open `#if`. */
  lemma ErasedSeesNoElse(lines: seq<Line>)
    ensures forall saved :: saved in Run(Erase(lines)).pp ==> !saved.seenElse
  {
    hide Run, Erase, Flags, Update;
    RunSimulates(lines);
    var o, e, fs := Run(lines), Run(Erase(lines)), Flags(lines);
    if true in fs {
      var k: nat :| Outermost(fs, k) && e == Waiting(o, k);
      forall i | 0 <= i < k
        ensures !o.pp[i].seenElse
      {
        assert fs[i] == fs[..k][i];
      }
    }
  }

  /** Right after an `#endif` that leaves no `#if` open, nothing is saved and no branch is open. */
  lemma OutermostEndif(lines: seq<Line>)
    requires Flags(lines) == []
    ensures Run(lines).pp == [] && Run(lines) == Run(Erase(lines))
  {
    RunSimulates(lines);
  }

  // ----- The block remembered as the previous top -----

  /** What becomes of a block: its value, for as long as it is on the stack and then for good. */
  datatype Fate = Fate(val: BlockVal, live: bool)

  function TokensFate(st: seq<BlockVal>, tokens: seq<Token>, k: nat): Fate
    requires k < |st|
  {
    if tokens == [] then Fate(st[k], true)
    else
      var f, s := TokensFate(st, Pop(tokens), k), ConsumeTokens(st, tokens);
      if f.live && k < |s| then Fate(s[k], true) else Fate(f.val, false)
  }

  /** The directive puts another stack in place of the live one. */
  predicate ReplacesStack(s: State, d: Directive) {
    s.pp != [] && (d == ElseDirective || (d == EndifDirective && Top(s.pp).seenElse))
  }

  lemma {:induction false} PushNamespacesKeeps(st: seq<BlockVal>, decls: seq<NamespaceDecl>)
    ensures st <= PushNamespaces(st, decls) && |PushNamespaces(st, decls)| == |st| + |decls|
  {
    if decls != [] {
      PushNamespacesKeeps(st, Pop(decls));
    }
  }

  lemma DeclaredLength(st: seq<BlockVal>, line: Line)
    ensures |Declared(st, line)| >= |st|
  {
    PushNamespacesKeeps(CountParens(st, line), line.namespaces);
  }

  /** The value, after the line, of the block that was on top before it. */
  function TopAfter(st: seq<BlockVal>, line: Line): BlockVal
    requires st != []
  {
    DeclaredLength(st, line);
    TokensFate(Declared(st, line), TailOf(Opened(st, line), line).tokens, |st| - 1).val
  }

  function RememberedVal(s: State, line: Line): BlockVal
    requires s.stack != []
  {
    if ReplacesStack(s, line.directive) then Top(s.stack) else TopAfter(s.stack, line)
  }

  /** The first token read while block `k` is on top. */
  function TokenOnTop(st: seq<BlockVal>, tokens: seq<Token>, k: nat): Option<Token> {
    if tokens == [] then None
    else
      var r := TokenOnTop(st, Pop(tokens), k);
      if r.Some? then r
      else if |ConsumeTokens(st, Pop(tokens))| == k + 1 then Some(Top(tokens))
      else None
  }

  lemma TokenChangesTop(st: seq<BlockVal>, t: Token)
    requires st != []
    ensures |ConsumeToken(st, t)| >= |st| - 1 && Pop(st) <= ConsumeToken(st, t)
    ensures |ConsumeToken(st, t)| >= |st| ==>
              ConsumeToken(st, t)[|st| - 1] ==
              if t.OpenBrace? then Top(st).(seenOpenBrace := true) else Top(st)
    ensures !Top(st).seenOpenBrace && !t.OpenBrace? ==> |ConsumeToken(st, t)| == |st| - 1
    ensures t.OpenBrace? ==> |ConsumeToken(st, t)| >= |st|
  {
  }

  /** Tokens change a block only by the first one that meets it on top: an open brace completes its head. */
  lemma {:induction false} TokensChangeBlock(st: seq<BlockVal>, tokens: seq<Token>, k: nat)
    requires k < |st|
    ensures var f, t, s := TokensFate(st, tokens, k), TokenOnTop(st, tokens, k), ConsumeTokens(st, tokens);
            && (f.live ==> k < |s| && f.val == s[k])
            && (t.None? ==> f.live)
            && f.val == (if t.Some? && t.value.OpenBrace? then st[k].(seenOpenBrace := true) else st[k])
            && (t.Some? && !t.value.OpenBrace? && !st[k].seenOpenBrace ==> !f.live)
    decreases |tokens|
  {
    hide ConsumeToken;
    if tokens != [] {
      var r := Pop(tokens);
      TokensChangeBlock(st, r, k);
      var s := ConsumeTokens(st, r);
      if TokensFate(st, r, k).live {
        TokenChangesTop(s, Top(tokens));
        var s' := ConsumeToken(s, Top(tokens));
        if k < |s| - 1 {
          assert Pop(s)[k] == s[k] && s'[k] == s[k];
        }
      }
    }
  }

  /** No block is pushed before the rest of the line is read. */
  predicate StaysOnTop(st: seq<BlockVal>, line: Line) {
    line.namespaces == [] && !AcceptsClass(CountParens(st, line), line)
  }

  predicate ParensKeep(b: BlockVal, line: Line) {
    line.depthChange == 0 && b.asm != EndAsm && !(b.asm == InsideAsm && b.openParens == 0)
  }

  /** What a class on top is told by the line is not news. */
  predicate HeadKeeps(b: BlockVal, line: Line) {
    b.kind.Class? ==>
      && (line.bareColon && !b.seenOpenBrace ==> b.isDerived)
      && (line.tail.access.Some? ==> line.tail.access.value == b.access)
  }

  predicate BracesKeep(st: seq<BlockVal>, line: Line)
    requires st != []
  {
    var t := TokenOnTop(Declared(st, line), TailOf(Opened(st, line), line).tokens, |st| - 1);
    Top(st).seenOpenBrace || t.None? || !t.value.OpenBrace?
  }

  /** The guards of the four places that change a block in place. */
  predicate KeepsTop(st: seq<BlockVal>, line: Line)
    requires st != []
  {
    && ParensKeep(Top(st), line)
    && (StaysOnTop(st, line) ==> HeadKeeps(Top(st), line))
    && BracesKeep(st, line)
  }

  /** The block on top before the line, when the braces of the line are reached. */
  lemma DeclaredTop(st: seq<BlockVal>, line: Line)
    requires st != []
    ensures |Declared(st, line)| >= |st|
    ensures var b, d := Top(CountParens(st, line)), Declared(st, line)[|st| - 1];
            if StaysOnTop(st, line) then
              && d.(isDerived := b.isDerived, access := b.access) == b
              && d.isDerived == (b.isDerived || (b.kind.Class? && !b.seenOpenBrace && line.bareColon))
              && d.access == (if b.kind.Class? && line.tail.access.Some? then line.tail.access.value else b.access)
            else d == b
  {
    PushNamespacesKeeps(CountParens(st, line), line.namespaces);
  }

  lemma CountedTop(st: seq<BlockVal>, line: Line)
    requires st != []
    ensures var b := Top(CountParens(st, line));
            && b.(openParens := Top(st).openParens, asm := Top(st).asm) == Top(st)
            && (b == Top(st) <==> ParensKeep(Top(st), line))
  {
  }

  /**
   The remembered block keeps its value exactly when the stack is replaced, so that it is no longer
   live, or none of the places that change a block in place changes it.
   */
  lemma RememberedKeptIff(s: State, line: Line)
    requires s.stack != []
    ensures RememberedVal(s, line) == Top(s.stack) <==>
            ReplacesStack(s, line.directive) || KeepsTop(s.stack, line)
  {
    hide CountParens, Declared, ParensKeep, StaysOnTop, TokensFate, TokenOnTop;
    var st := s.stack;
    CountedTop(st, line);
    DeclaredTop(st, line);
    TokensChangeBlock(Declared(st, line), TailOf(Opened(st, line), line).tokens, |st| - 1);
  }

  /** Its kind, which is all the checks look at, is kept in any case. */
  lemma RememberedKindKept(s: State, line: Line)
    requires s.stack != []
    ensures RememberedVal(s, line).kind == Top(s.stack).kind
  {
    hide CountParens, Declared, ParensKeep, StaysOnTop, TokensFate, TokenOnTop;
    var st := s.stack;
    CountedTop(st, line);
    DeclaredTop(st, line);
    TokensChangeBlock(Declared(st, line), TailOf(Opened(st, line), line).tokens, |st| - 1);
  }

  /** In `class A {` followed by `public:` the remembered block changes. */
  lemma RememberedChanges(head: Line, access: Line)
    requires head == Line(NoDirective, 0, false, [],
                          Some(ClassDecl(Class("A", 0, false, 0, 2), false, Tail(None, [OpenBrace(false, false)]))),
                          false, Tail(None, []))
    requires access == Line(NoDirective, 0, false, [], None, false, Tail(Some("public"), []))
    ensures Run([head]).stack != []
    ensures Top(Run([head]).stack).access == "private" && RememberedVal(Run([head]), access).access == "public"
  {
    assert Pop([head]) == [];
    var t := [OpenBrace(false, false)];
    assert Pop(t) == [];
    assert ConsumeTokens(Declared([], head), []) == Declared([], head);
    assert Run([head]) == Update(EMPTY, head);
  }
}
