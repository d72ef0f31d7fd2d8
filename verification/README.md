# Build and debug tooling of MongoDB 3.6, modelled and proved in Dafny

This project models eight algorithms of the repository's build and debug scripts and proves what
they promise. `dafny verify dfyconfig.toml` checks all of it. Each component has a definition on
values that says what is computed, imperative methods in the form of the source that are proved to
compute it, and theorems about it.

| component | source | files |
|---|---|---|
| Bracket matchers of cpplint | `buildscripts/cpplint.py` | `Brackets`, `Lines`, `ForwardMatcher`, `BackwardMatcher`, `Matchers`, `Angles`, `AngleMatchers` |
| `NestingState` of cpplint | `buildscripts/cpplint.py` | `Nesting`, `BlockLaws`, `NestingStates` |
| Library dependency walk | `site_scons/libdeps.py` | `Digraph`, `DependencySearch`, `Libdeps` |
| Waits-for graph | `buildscripts/gdb/mongo_lock.py` | `Digraph`, `CycleSearch`, `WaitsFor` |
| Parallel lint driver | `buildscripts/linter/parallel.py` | `Parallel`, `Progress`, `FairSchedules` |
| Test lifecycle tags | `buildscripts/update_test_lifecycle.py`, `buildscripts/ciconfig/tags.py` | `TagNames`, `TagsConfigs`, `TestLifecycle` |
| Assertion codes | `buildscripts/errorcodes.py` | `ErrorCodes`, `ErrorRepair` |
| Cache pruning | `buildscripts/scons_cache_prune.py` | `CachePrune` |

`Options`, `Sequences` and `Sorting` hold the little that several components share.

## How the main results hang together

**Bracket matchers.** `Brackets.Balanced` is a grammar, independent of any scanner, and `MatchAt`
says which brackets belong together. The forward scanner and the backward scanner guess differently
about `<`, `>`, `->`, `<<`, `>=`, `;` and `operator`; both are proved to find exactly the partner
`MatchAt` gives, over any number of lines. That they are inverse, and that `_GetTextInside` agrees
with them, follows. For `<` and `>` there is no grammar, only guesses. `ForwardSign` and
`BackwardSign` give the part each `<`, `>` and `;` plays by the text around it, and `Angles.EndsAt`
says where a list ends by counting the guesses pending outside of bracket groups. Both searches are
proved to find that end, or nothing exactly when there is none, from every place of a file
(`CloseExpressionExactly`, `ReverseCloseExpressionExactly`).

**`NestingState`.** The heap model keeps the block objects, updated in place. Its invariant is that
no block object is held twice, by the live stack or by a saved one. Because of it every method acts
on the values as the functions in `Nesting` say, including the restore at `#endif` that does not
copy. On the values, a simulation shows that `#else` and `#elif` branches leave no trace, and
`BlockLaws` says what the stack holds: after any braces, what is left and one block for each brace
never closed (`StackAfterTokens`); the heads of a line in order (`HeadsOfLine`); in each block, the
sum of the parentheses of the lines it was on top for (`ParensOfFile`).

**Dependency walk and cycle search.** Both searches are depth-first and leave the same certificate
behind, an order in which every node comes after its successors (`Digraph.PostOrder`), from which
the absence of cycles follows.

**Parallel driver.** A state machine over the steps of the workers and of the main thread; theorems
quantify over all schedules.

## Where the code departs from its documentation or intent

The code is modelled as it is.

- From a `<` that is the second half of `<<` or follows `operator`, `CloseExpression` may end at a
  bracket that was opened later, so the brackets strictly inside are not balanced
  (`CloseAngleAfterShift`). `CloseAngle` says exactly when they are: when the first thing the scan
  pushes from there on is a `<`.
- The two searches read ` >= ` differently, so from the end `CloseExpression` finds for a `<` there
  may be no way back (`ComparisonHasNoWayBack`). `AngleRoundTripIff` gives the exact condition;
  it is met when both read every place of the list alike (`AngleForwardThenBackward`).
- The list of the potential cycle in `depth_first_search` is a default argument and is left dirty
  by a search that finds a cycle. A second search of the same graph can then report nodes that form
  no cycle (`LeftBehindMisleads`). `DetectsNoneIff` gives the exact condition for the answer "none"
  and `DetectedRealIff` for a real report, for any list left behind. For repetitions of one search
  `RepeatIsRealIff` gives both: the first one is right exactly when the walk of the first search had
  several nodes and an edge from its last to its first, the later ones never are.
- A non-empty sorted copy of the direct dependencies hides dependencies appended later
  (`AppendDirectLibdeps`, and `LateAppendIsHidden` for a run in which this happens). In every run in
  which libraries get dependencies before a walk meets them, all answers are right (`Perform`).
- `parallel_process` can wait forever when the work function raises. `HangsIffManyEarlyRaises` and
  `AlwaysReturnsIff` say exactly when.
- `clean_up_tags` removes tags from the list it is going through and passes over the tag after each
  removed one. No irrelevant tag stays if no two stand next to each other, and in a list without
  repeated tags only then (`CleanUpCompleteIff`); `RepeatedTagHelps` shows a list with a repeated tag
  where it is otherwise. What is cleaned up is recorded apart, so the two logs are not the
  difference any more (`CleanUpTagsOf`).
- `is_modified` also holds when a new test kind was added and emptied again (`ModifiedIffLogged`).
- The documentation of `reliable_test` and `unreliable_test` speaks of less and greater; the code also
  counts equality (`WordingDiffersIff` says where the two differ).
- cpplint remembers the previous top of the stack by reference, on the ground that blocks are never
  changed in place; they are (`RememberedChanges`). `RememberedKeptIff` says exactly when the
  remembered block keeps its value, and `RememberedKindKept` that its kind is kept always.
- `getNextCode` raises a type error when fewer than two codes are known. A zero code written with
  more than one digit is rewritten only as a duplicate, a lone one stays (`LoneLongZeroStays`). It
  keeps its other digits behind the new code, so it does not read back as that code
  (`ReadsBackIffOneDigit`, `TwoDigitZeroKeepsOne`).
- A tag whose variant is empty counts on another level, and a tag of another shape counts as a tag
  of the whole test (`EmptyVariantIsMistaken`, `OtherTagIsMistaken`). `TagRoundTrip` and `OwnTagIff`
  say exactly which combinations and which tags come back, and `OtherTagStaysIff` what the levels do
  to the others.

## Model

| member | source | states |
|---|---|---|
| ForwardMatcher.FindEndOfExpressionInLine | mongo-r3.6.18/buildscripts/cpplint.py:1379-1454 | the loop with its stack of guesses computes the scan of one line, in all three outcomes; what that scan finds is pinned by `CloseExpressionExactly` |
| ForwardMatcher.CloseExpression | mongo-r3.6.18/buildscripts/cpplint.py:1457-1498 | the place past the end over as many lines as needed, with the line there; or the number of lines and -1, with the last line that was scanned; which place that is, and when there is none, is pinned by `CloseExpressionExactly` |
| ForwardMatcher.CloseExpressionMatches | mongo-r3.6.18/buildscripts/cpplint.py:1379-1498 | from a round, square or curly bracket: success exactly when the bracket has a partner in the flattened file by the grammar, and then at that partner, whatever angle brackets, shifts, arrows, semicolons or operator names lie between |
| ForwardMatcher.CloseAngle | mongo-r3.6.18/buildscripts/cpplint.py:1379-1498 | success from a `<`: the brackets passed over, end included, are balanced; those strictly inside are balanced exactly when the first thing pushed from the `<` on, which lies on its line, is a `<`, and so whenever the `<` is neither in a shift nor an operator name |
| ForwardMatcher.PushDecidesEnd | mongo-r3.6.18/buildscripts/cpplint.py:1396-1454 | the first thing pushed decides the end: a `>` for a `<`, a closing bracket for a bracket |
| ForwardMatcher.CloseAngleAfterShift | mongo-r3.6.18/buildscripts/cpplint.py:1402-1408 | a `<` after `<` for which success ends at a bracket and the inside is not balanced |
| AngleMatchers.CloseExpressionExactly | mongo-r3.6.18/buildscripts/cpplint.py:1379-1498 | from every place of a file: the search ends at a character exactly when the expression there ends with it. For a `<` that is the first place, outside of bracket groups and before any end of a statement, at which the guesses from there on have all been taken back or ended |
| AngleMatchers.CloseExpressionFailsIff | mongo-r3.6.18/buildscripts/cpplint.py:1457-1498 | nothing is found exactly when the expression has no end |
| Angles.ScanFindsEnd | mongo-r3.6.18/buildscripts/cpplint.py:1396-1454 | a scan that has just pushed a guess finds the place where its list ends by counting, and nothing if there is no such place |
| Angles.EndUnique | mongo-r3.6.18/buildscripts/cpplint.py:1396-1454 | a list ends at one place at most |
| BackwardMatcher.FindStartOfExpressionInLine | mongo-r3.6.18/buildscripts/cpplint.py:1501-1575 | the backward loop, with its extra step over an operator, computes the backward scan of one line; what that scan finds is pinned by `ReverseCloseExpressionExactly` |
| BackwardMatcher.ReverseCloseExpression | mongo-r3.6.18/buildscripts/cpplint.py:1578-1613 | the place of the start over as many lines as needed, with the line there; or 0 and -1, with the first line of the file that was scanned; which place that is, and when there is none, is pinned by `ReverseCloseExpressionExactly` |
| BackwardMatcher.SkippedIsNeutral | mongo-r3.6.18/buildscripts/cpplint.py:1521-1538 | the extra character stepped over is never a round, square or curly bracket |
| BackwardMatcher.ReverseCloseExpressionMatches | mongo-r3.6.18/buildscripts/cpplint.py:1501-1613 | from a closing bracket: success exactly when it has a partner in the flattened file, and then at that partner |
| AngleMatchers.ReverseCloseExpressionExactly | mongo-r3.6.18/buildscripts/cpplint.py:1501-1613 | from every place of a file: the backward search stops at a character exactly when the expression ending there starts with it; for a `>` by counting guesses backwards |
| AngleMatchers.ReverseCloseExpressionFailsIff | mongo-r3.6.18/buildscripts/cpplint.py:1578-1613 | nothing is found exactly when the expression has no start |
| AngleMatchers.SkippedIsPlain | mongo-r3.6.18/buildscripts/cpplint.py:1521-1538 | the extra character stepped over plays no part in the search |
| Angles.StartsIffMirrorEnds | mongo-r3.6.18/buildscripts/cpplint.py:1501-1575 | a list starts where, in the mirrored text, it ends |
| Matchers.ForwardThenBackward | mongo-r3.6.18/buildscripts/cpplint.py:1379-1613 | from any `(`, `[`, `{`: going to the end and back returns exactly the starting place |
| Matchers.BackwardThenForward | mongo-r3.6.18/buildscripts/cpplint.py:1379-1613 | from any `)`, `]`, `}`: going to the start and forward again returns exactly the place past the bracket |
| AngleMatchers.AngleRoundTripIff | mongo-r3.6.18/buildscripts/cpplint.py:1379-1613 | from a `<` that begins a list: the way back from its end leads to it exactly when the expression ending there starts with it, as counted in the text |
| AngleMatchers.AngleForwardThenBackward | mongo-r3.6.18/buildscripts/cpplint.py:1379-1613 | it does whenever both searches read every place of the list outside of bracket groups alike |
| AngleMatchers.AngleBackwardThenForward | mongo-r3.6.18/buildscripts/cpplint.py:1379-1613 | the same from a `>`, unless the start is one the forward search refuses |
| AngleMatchers.ComparisonHasNoWayBack | mongo-r3.6.18/buildscripts/cpplint.py:1521-1538 | a line in which the end found forwards has no start backwards |
| Angles.EndsThenStarts | mongo-r3.6.18/buildscripts/cpplint.py:1379-1575 | on any text with two readings that agree, a list read back from its end starts where it began |
| Angles.StartsThenEnds | mongo-r3.6.18/buildscripts/cpplint.py:1379-1575 | and the other way round |
| Matchers.GetTextInside | mongo-r3.6.18/buildscripts/cpplint.py:4690-4720 | once the start pattern has matched, the text up to the partner of the opening bracket by the grammar, or nothing if it has none |
| Matchers.TextInsideAgrees | mongo-r3.6.18/buildscripts/cpplint.py:4667-4720 | the text returned by `_GetTextInside` ends exactly where `CloseExpression` ends; one finds nothing exactly when the other does |
| Brackets.MatchUnique | mongo-r3.6.18/buildscripts/cpplint.py:1379-1498 | by the grammar a bracket has at most one partner, in both directions |
| Brackets.BalancedIffRuns | mongo-r3.6.18/buildscripts/cpplint.py:1396-1454 | the grammar accepts exactly the texts on which a stack of brackets never mismatches and ends empty |
| Brackets.MatchMirror | mongo-r3.6.18/buildscripts/cpplint.py:1501-1613 | partners in a text are partners in the mirrored text, which carries the forward theory over to the backward search |
| NestingStates.DeepCopy | mongo-r3.6.18/buildscripts/cpplint.py:2414-2426 | the copy of a stack has the same values in objects that are all new |
| NestingStates.NestingState.SaveBeforeElse | mongo-r3.6.18/buildscripts/cpplint.py:2418-2423 | the stack at the first `#else` is saved in new objects, the stack before the `#if` is kept |
| NestingStates.NestingState.RestoreBeforeIf | mongo-r3.6.18/buildscripts/cpplint.py:2425-2426 | the live stack gets the values before the `#if` in objects that are all new |
| NestingStates.NestingState.BeginIf | mongo-r3.6.18/buildscripts/cpplint.py:2411-2414 | `#if` saves a copy of the stack; no block is held twice afterwards |
| NestingStates.NestingState.BeginElse | mongo-r3.6.18/buildscripts/cpplint.py:2415-2429 | the first `#else` or `#elif` saves the stack, every one restores the stack before the `#if`; no block is held twice afterwards |
| NestingStates.NestingState.EndIf | mongo-r3.6.18/buildscripts/cpplint.py:2430-2444 | the uncopied restore gives the saved values and leaves no block held twice |
| NestingStates.NestingState.UpdatePreprocessor | mongo-r3.6.18/buildscripts/cpplint.py:2390-2444 | any directive acts on the values of the live and saved stacks as the value model says, keeps all block objects apart, and either leaves the live stack alone or puts one in its place that shares no block with it |
| NestingStates.NestingState.CountParens | mongo-r3.6.18/buildscripts/cpplint.py:2471-2492 | the in-place update of parentheses and assembly state changes the value of the top block only, to the value pinned by `TopOfLine` |
| NestingStates.NestingState.PushNamespaces | mongo-r3.6.18/buildscripts/cpplint.py:2494-2512 | one new block per namespace head, with its brace seen or not; which blocks is pinned by `NamespacesInOrder` |
| NestingStates.NestingState.DeclareClass | mongo-r3.6.18/buildscripts/cpplint.py:2514-2539 | a class head is pushed unless inside parentheses or template arguments, and decides what is left of the line; pinned by `HeadsOfLine` |
| NestingStates.NestingState.CheckBegin | mongo-r3.6.18/buildscripts/cpplint.py:2176-2179 | a bare colon before the brace marks the class on top as derived, in place |
| NestingStates.NestingState.SetAccess | mongo-r3.6.18/buildscripts/cpplint.py:2546-2554 | an access specifier changes the class on top, in place |
| NestingStates.NestingState.ConsumeToken | mongo-r3.6.18/buildscripts/cpplint.py:2579-2609 | one token acts on the values of the stack as the value model says; at most one block is pushed or dropped, a dropped block keeps its value, a pushed one is new; the values are pinned by `LoneBrace` and `HeadMeetsToken` |
| NestingStates.NestingState.ConsumeTokens | mongo-r3.6.18/buildscripts/cpplint.py:2572-2609 | braces, semicolons and closing parentheses open, complete, drop and close blocks in order; any one block followed through the line has the value the value model says, also after it was dropped; the values are pinned by `StackAfterTokens` |
| NestingStates.NestingState.UpdateBlocks | mongo-r3.6.18/buildscripts/cpplint.py:2471-2609 | the whole rest of a line changes no block held elsewhere and takes none of them into the live stack; the block that was on top has the value the value model says |
| NestingStates.NestingState.RememberTop | mongo-r3.6.18/buildscripts/cpplint.py:2457-2466 | the reference to the block on top is kept, and no value changes |
| NestingStates.NestingState.UpdateStacks | mongo-r3.6.18/buildscripts/cpplint.py:2468-2609 | directive and blocks of a line act as the value model says and keep all block objects apart; the block that was on top has the value the value model says, whether or not it is still live |
| NestingStates.NestingState.Update | mongo-r3.6.18/buildscripts/cpplint.py:2447-2609 | one line acts on live and saved stacks as the value model says and keeps all block objects apart, so in-place updates never reach a saved stack; the previous top is remembered by reference, with the value it has after the line; the values are pinned by the laws of `BlockLaws` |
| NestingStates.NestingState.ProcessFile | mongo-r3.6.18/buildscripts/cpplint.py:2447-2609 | after any file the objects have the values of the value model and no block is held twice; the values are pinned by `ParensOfFile` and `ElseBranchesLeaveNoTrace` |
| Nesting.RememberedKeptIff | mongo-r3.6.18/buildscripts/cpplint.py:2457-2609 | the remembered block keeps its value exactly when a directive replaces the live stack, or parentheses, class head, access specifier and braces of the line all leave that block alone |
| BlockLaws.StackAfterTokens | mongo-r3.6.18/buildscripts/cpplint.py:2572-2609 | over any tokens from a stack of complete blocks: what the unmatched closing braces leave of it, and then exactly one block, extern "C", plain or assembly, for each open brace that is never closed, in order |
| BlockLaws.BalancedTokensKeep | mongo-r3.6.18/buildscripts/cpplint.py:2572-2609 | balanced braces leave the stack as it was |
| BlockLaws.LoneBrace | mongo-r3.6.18/buildscripts/cpplint.py:2579-2609 | among balanced braces a lone open one adds its block, a lone closing one drops the innermost block, and no other token does anything |
| BlockLaws.HeadMeetsToken | mongo-r3.6.18/buildscripts/cpplint.py:2579-2609 | the next token completes a head that waits for its brace if it is an open brace, and drops it otherwise |
| BlockLaws.NamespacesInOrder | mongo-r3.6.18/buildscripts/cpplint.py:2494-2512 | the stack gains exactly the namespace heads in order, each with its name, start and brace |
| BlockLaws.HeadsOfLine | mongo-r3.6.18/buildscripts/cpplint.py:2494-2554 | the stack before the braces of a line: the blocks below the top untouched, the namespaces in order, and a class exactly when its head is neither in parentheses nor in template arguments; it starts public for a struct and private otherwise unless the line says more, and is derived if a bare colon follows |
| BlockLaws.TopOfLine | mongo-r3.6.18/buildscripts/cpplint.py:2471-2554 | every field of the block on top before the braces of a line: parentheses added, assembly code begun and ended, base list and access only where they are meant for it |
| BlockLaws.ParensOfLine | mongo-r3.6.18/buildscripts/cpplint.py:2471-2492 | over a whole line each block that stays on the stack keeps its open parentheses, plus the change of the line if it was on top; a new block has none |
| BlockLaws.ParensAreSums | mongo-r3.6.18/buildscripts/cpplint.py:2471-2492 | over any file whose directives replace no stack: the open parentheses of each block are the sum of the changes of those lines, since the block was pushed, before which it was on top |
| BlockLaws.ErasedIsSteady | mongo-r3.6.18/buildscripts/cpplint.py:2390-2444 | in a file without `#else` branches no directive replaces the live stack |
| BlockLaws.ParensOfFile | mongo-r3.6.18/buildscripts/cpplint.py:2390-2492 | after any file, outside of `#else` branches, the open parentheses are those sums over the file without the branches |
| BlockLaws.AsmFitsAlways | mongo-r3.6.18/buildscripts/cpplint.py:2471-2492 | after any file, in the live and all saved stacks, a block is inside assembly code only while it has an open parenthesis and has just left it only when it has none |
| Nesting.RememberedKindKept | mongo-r3.6.18/buildscripts/cpplint.py:2457-2609 | the kind of the remembered block, which is what the checks look at, is kept by every line |
| Nesting.RememberedChanges | mongo-r3.6.18/buildscripts/cpplint.py:2460-2464 | a class head and an access specifier after which the remembered block differs from what it was |
| Nesting.TokensChangeBlock | mongo-r3.6.18/buildscripts/cpplint.py:2572-2609 | over any tokens and for any block: only the first token that meets the block on top can change it, and only an open brace does |
| Nesting.RunSimulates | mongo-r3.6.18/buildscripts/cpplint.py:2257-2268 | after any lines, the state is the one of the file without `#else` branches, or the erased file waits at the outermost `#else` with the stack saved there |
| Nesting.ElseBranchesLeaveNoTrace | mongo-r3.6.18/buildscripts/cpplint.py:2390-2444 | at every line outside such branches the live and saved stacks equal those of the file with all `#else` and `#elif` branches erased, at any depth, with any number of branches, however directives nest |
| Nesting.OutermostEndif | mongo-r3.6.18/buildscripts/cpplint.py:2430-2444 | whenever no `#if` is open nothing is saved and the stack is that of the erased file |
| Nesting.ErasedSeesNoElse | mongo-r3.6.18/buildscripts/cpplint.py:2415-2426 | reading the erased file never passes an `#else` of an open `#if` |
| Libdeps.GetSortedDirectLibdeps | mongo-r3.6.18/site_scons/libdeps.py:84-90 | returns the sorted copy, recomputed when missing or empty, which is stored from then on; a copy made now has the direct dependencies ascending by name, equal names in the order they were appended; no list the walk uses changes |
| Libdeps.SortByNameIsSorted | mongo-r3.6.18/site_scons/libdeps.py:88 | the sorted copy is a permutation, ascending by name, stable |
| Sorting.StringLeIff | mongo-r3.6.18/site_scons/libdeps.py:88 | names compare by the first character in which they differ, a prefix first |
| Sorting.SortStable | mongo-r3.6.18/site_scons/libdeps.py:88 | elements with equal keys keep their order |
| Libdeps.AppendDirectLibdeps | mongo-r3.6.18/site_scons/libdeps.py:218-224 | extends the direct dependencies; a sorted copy that is not empty hides the new ones, otherwise they are seen; an up-to-date library stays so exactly when nothing is appended or its copy is missing or empty |
| Libdeps.Walk.Visit | mongo-r3.6.18/site_scons/libdeps.py:107-130 | the recursive visit with exploring flags, marks and the growing cycle trace follows the search on values; the flags are as before on return and on a cycle error; copies are written only where the walk can get |
| Libdeps.Walk.VisitBelow | mongo-r3.6.18/site_scons/libdeps.py:112-127 | while a library is flagged: a marked one is passed over, otherwise its children are visited, and it is marked or the cycle trace grows, as in the search on values |
| Libdeps.Walk.VisitChildren | mongo-r3.6.18/site_scons/libdeps.py:117-135 | the loop over the sorted dependencies, leaving out one kind, follows the search on values |
| Libdeps.Walk.BeginExploring | mongo-r3.6.18/site_scons/libdeps.py:108-111 | raising the flag of a library extends the set of libraries being explored by it |
| Libdeps.Walk.EndExploring | mongo-r3.6.18/site_scons/libdeps.py:129-130 | lowering the flag restores the set of libraries being explored |
| Libdeps.Walk.Finish | mongo-r3.6.18/site_scons/libdeps.py:121-122 | marking and appending keeps the marks equal to the order found so far |
| Libdeps.Walk.SortedChildren | mongo-r3.6.18/site_scons/libdeps.py:84-90 | asking for the sorted dependencies changes no list and leaves the copy on the library |
| Libdeps.WalkLibdeps | mongo-r3.6.18/site_scons/libdeps.py:104-140 | the walk changes no list it uses, clears all flags, and leaves a sorted copy on the node and on every library it returns |
| Libdeps.GetLibdeps | mongo-r3.6.18/site_scons/libdeps.py:92-140 | returns the cached answer, else computes, reverses and caches it; a cycle error leaves nothing cached; all exploring flags are clear on every exit; exactly the up-to-date libraries stay up to date; every library of a new answer has its sorted copy; the order of the answer is pinned by `LibrariesInLinkOrder` and `SmallerNameComesLater` |
| Libdeps.LibrariesInLinkOrder | mongo-r3.6.18/site_scons/libdeps.py:104-140 | the answer has no duplicates, holds every library reachable by a first non-interface and then non-private dependencies, and puts each before all its own non-private dependencies |
| Libdeps.LibrariesAreReachable | mongo-r3.6.18/site_scons/libdeps.py:104-140 | nothing else is in the answer |
| Libdeps.SmallerNameComesLater | mongo-r3.6.18/site_scons/libdeps.py:84-140 | of two direct dependencies whose lists are by name, the one with the smaller name comes later in the answer, unless another dependency leads to the one with the larger name |
| Libdeps.SortedIsByName | mongo-r3.6.18/site_scons/libdeps.py:84-90 | a list that was sorted is by name |
| Libdeps.CycleErrorIsReal | mongo-r3.6.18/site_scons/libdeps.py:74-130 | a cycle error names libraries that begin and end with the same one and follow non-private dependencies, on a cycle that can be reached |
| Libdeps.CycleIsReported | mongo-r3.6.18/site_scons/libdeps.py:107-135 | whenever a non-private cycle can be reached the error is raised |
| Libdeps.OnlyReachableMatters | mongo-r3.6.18/site_scons/libdeps.py:92-140 | lists of libraries that cannot be reached do not influence the answer |
| Libdeps.CachedAnswerIsFresh | mongo-r3.6.18/site_scons/libdeps.py:99-102 | a cached answer equals a fresh computation if the sorted direct dependencies of every reachable library are those it was computed from |
| Libdeps.AgreeOnReach | mongo-r3.6.18/site_scons/libdeps.py:104-140 | lists that agree on a node and on any set closed under what the walk follows give the same answer |
| Libdeps.CurrentAnswerIsFresh | mongo-r3.6.18/site_scons/libdeps.py:99-102 | a cached answer whose libraries have the lists it was computed from is the fresh one |
| Libdeps.GetInSession | mongo-r3.6.18/site_scons/libdeps.py:92-140 | in a run where appends come in time an answer is fresh, cached or not, and the run stays one |
| Libdeps.AppendInSession | mongo-r3.6.18/site_scons/libdeps.py:218-224 | an append to a library no walk has met keeps everything up to date and all cached answers fresh |
| Libdeps.PerformOne | mongo-r3.6.18/site_scons/libdeps.py:92-224 | one operation of such a run, on the direct dependencies |
| Libdeps.Perform | mongo-r3.6.18/site_scons/libdeps.py:92-224 | over every run of both operations in which no library gets dependencies after a walk could have met it, every answer is the one computed from the direct dependencies at that time |
| Libdeps.LateAppendIsHidden | mongo-r3.6.18/site_scons/libdeps.py:84-102 | a run with new libraries in which an append comes too late and a first answer lacks the dependency |
| Libdeps.AppendOrderDoesNotMatter | mongo-r3.6.18/site_scons/libdeps.py:84-140 | with distinct names the answer does not depend on the order in which direct dependencies were appended, duplicates included |
| DependencySearch.SearchOrders | mongo-r3.6.18/site_scons/libdeps.py:107-135 | a search that succeeds orders exactly what can be reached, each node after its successors, and no cycle can be reached |
| DependencySearch.FirstAskedFirstFinished | mongo-r3.6.18/site_scons/libdeps.py:107-135 | on any graph, of two nodes asked for the one asked for first is finished first, unless the other can be reached from it or from one before it |
| DependencySearch.SearchFailsIffCyclic | mongo-r3.6.18/site_scons/libdeps.py:107-135 | on any graph, the search fails exactly when a cycle can be reached |
| DependencySearch.SearchFindsRealCycle | mongo-r3.6.18/site_scons/libdeps.py:74-130 | the trace of a failing search is closed, follows the edges and can be reached |
| DependencySearch.VisitAllAgrees | mongo-r3.6.18/site_scons/libdeps.py:107-135 | two graphs that agree on what can be reached give the same search |
| WaitsFor.Graph.AddEdge | mongo-r3.6.18/buildscripts/gdb/mongo_lock.py:97-111 | adds missing nodes and the edge unless it is there |
| WaitsFor.Graph.AddNode | mongo-r3.6.18/buildscripts/gdb/mongo_lock.py:71-73 | the node is there afterwards, every entry that was there is unchanged, no edge is new, and closure, single edges and bipartiteness are kept |
| WaitsFor.WithEdgeAdds | mongo-r3.6.18/buildscripts/gdb/mongo_lock.py:97-111 | after adding an edge exactly this edge is new |
| WaitsFor.WithEdgeKeeps | mongo-r3.6.18/buildscripts/gdb/mongo_lock.py:97-111 | an edge between a thread and a lock keeps closure, single edges and bipartiteness |
| WaitsFor.Graph.FindFromNode | mongo-r3.6.18/buildscripts/gdb/mongo_lock.py:80-86 | finds a node with an edge to the given one exactly when there is one, in any order of the dictionary |
| WaitsFor.Graph.RemoveNodesWithoutEdge | mongo-r3.6.18/buildscripts/gdb/mongo_lock.py:88-95 | keeps exactly the nodes that have an edge in some direction, in any order of the dictionary |
| WaitsFor.RecordAllWellFormed | mongo-r3.6.18/buildscripts/gdb/mongo_lock.py:71-111 | over every sequence of records the graph is closed, without doubled edges and bipartite between threads and locks |
| WaitsFor.RecordAllEdges | mongo-r3.6.18/buildscripts/gdb/mongo_lock.py:232-267 | its edges are exactly those some record asked for |
| WaitsFor.PrunedCycle | mongo-r3.6.18/buildscripts/gdb/mongo_lock.py:88-95 | pruning keeps every cycle and adds none |
| WaitsFor.PrunedEdge | mongo-r3.6.18/buildscripts/gdb/mongo_lock.py:88-95 | pruning keeps exactly the edges |
| WaitsFor.PrunedWellFormed | mongo-r3.6.18/buildscripts/gdb/mongo_lock.py:88-95 | pruning keeps closure, single edges and bipartiteness |
| WaitsFor.PrunedRemoves | mongo-r3.6.18/buildscripts/gdb/mongo_lock.py:88-95 | a node is pruned exactly when it has no edge in either direction |
| WaitsFor.Graph.DepthFirstSearch | mongo-r3.6.18/buildscripts/gdb/mongo_lock.py:139-158 | the recursive search with the shared list as state follows the search on values |
| WaitsFor.Graph.SearchNext | mongo-r3.6.18/buildscripts/gdb/mongo_lock.py:147-154 | the loop over the next nodes follows the search on values |
| WaitsFor.Graph.DetectCycle | mongo-r3.6.18/buildscripts/gdb/mongo_lock.py:160-170 | for every order of the nodes and every list left behind, result and list are those of the search on values |
| CycleSearch.DetectsNoneIff | mongo-r3.6.18/buildscripts/gdb/mongo_lock.py:139-170 | whatever was left in the shared list: the answer is none exactly when the graph is acyclic and no edge leads into that list |
| CycleSearch.DetectedCycleIsReal | mongo-r3.6.18/buildscripts/gdb/mongo_lock.py:147-154 | if no edge leads into what was left behind, the nodes returned are distinct and form a cycle, last to first included |
| CycleSearch.DetectedRealIff | mongo-r3.6.18/buildscripts/gdb/mongo_lock.py:139-170 | for any list left behind: the nodes returned are a cycle of distinct nodes exactly when they do not begin in that list, or the list from there on is a walk of distinct nodes with an edge to the node this search started from |
| CycleSearch.ReportIsRealIff | mongo-r3.6.18/buildscripts/gdb/mongo_lock.py:147-154 | the same for any result together with the list it was cut from |
| CycleSearch.DetectRepeats | mongo-r3.6.18/buildscripts/gdb/mongo_lock.py:139-170 | with nodes of a first search left behind, the same search again stops at the first step of the walk the first one made |
| CycleSearch.RepeatIsRealIff | mongo-r3.6.18/buildscripts/gdb/mongo_lock.py:139-170 | result and list of every repetition of a search that finds a cycle; the result is a cycle of distinct nodes exactly in the first repetition, if the walk had several nodes and an edge leads from its last to its first |
| CycleSearch.DetectsExactlyCycles | mongo-r3.6.18/buildscripts/gdb/mongo_lock.py:139-170 | with the shared list empty: none exactly when acyclic, else a real cycle of distinct nodes; none leaves the list empty |
| WaitsFor.LeftBehindMisleads | mongo-r3.6.18/buildscripts/gdb/mongo_lock.py:139 | a graph whose second search returns nodes that form no cycle |
| WaitsFor.CycleAlternates | mongo-r3.6.18/buildscripts/gdb/mongo_lock.py:232-267 | a cycle has even length and alternates waiting threads and held locks, every step of it recorded |
| WaitsFor.CyclicIffDeadlocked | mongo-r3.6.18/buildscripts/gdb/mongo_lock.py:119-124 | the recorded graph has a cycle exactly when some threads wait for each other in a circle |
| WaitsFor.WaitsForCommand | mongo-r3.6.18/buildscripts/gdb/mongo_lock.py:331-345 | whatever earlier commands left behind: nothing is reported exactly when the recorded threads are not deadlocked and no recorded edge leads into that list, and then the list stays; for a report it is exact when it is a real cycle of distinct nodes; with nothing left behind it is one, exactly when the threads are deadlocked |
| Parallel.ReachableInvariant | mongo-r3.6.18/buildscripts/linter/parallel.py:20-73 | in every state of every schedule, with any number of workers: items conserved, lock, result and event consistent, workers started and joined in order |
| Parallel.ReachableFacts | mongo-r3.6.18/buildscripts/linter/parallel.py:27-50 | each item is queued, in flight at one worker or finished once; no worker leaves before the event; after the event a worker starts at most one more item |
| Parallel.ReturnedValueIsRight | mongo-r3.6.18/buildscripts/linter/parallel.py:44-73 | true is returned only if every item was finished exactly once and none failed, false only if some item taken failed |
| Parallel.ReturnedIffAllPass | mongo-r3.6.18/buildscripts/linter/parallel.py:12-73 | if the work function never raises, the value returned says whether it was true on all items |
| Progress.RunsAreBounded | mongo-r3.6.18/buildscripts/linter/parallel.py:27-71 | under every schedule the threads move at most a fixed number of times, linear in items and workers |
| Progress.StuckMeansReturnedOrHung | mongo-r3.6.18/buildscripts/linter/parallel.py:65-73 | a state in which no thread can move is one in which the main thread has returned, or all workers died before the event |
| Progress.StopsOnlyWhenReturned | mongo-r3.6.18/buildscripts/linter/parallel.py:65-73 | without exceptions and with at least one worker, no thread can be stuck before the main thread has returned |
| FairSchedules.FairRunEnds | mongo-r3.6.18/buildscripts/linter/parallel.py:27-73 | after more rounds, each giving every thread a turn, than the bound on moves, the main thread has returned or all workers died before the event |
| FairSchedules.FairRunReturns | mongo-r3.6.18/buildscripts/linter/parallel.py:27-73 | if the work function never raises and there is a worker, the main thread has returned by then |
| FairSchedules.AlwaysReturnsIff | mongo-r3.6.18/buildscripts/linter/parallel.py:27-73 | the main thread returns under every such schedule exactly when fewer items raise before the first failing one than there are workers |
| Progress.HangsIffManyEarlyRaises | mongo-r3.6.18/buildscripts/linter/parallel.py:38-50 | some schedule leaves the main thread waiting forever exactly when at least as many items raise before the first failing one as there are workers |
| TagNames.CompareTagsIsTotalOrder | mongo-r3.6.18/buildscripts/update_test_lifecycle.py:271-275 | the order by components is total and tells any two tags apart |
| TagNames.TagLeIff | mongo-r3.6.18/buildscripts/update_test_lifecycle.py:271-275 | tags compare by the first component in which they differ, that by its first differing character, and a beginning comes first |
| TagNames.TagRoundTrip | mongo-r3.6.18/buildscripts/update_test_lifecycle.py:235-249 | a combination comes back from its tag exactly when its components are non-empty and hold no bar |
| TagNames.OwnTagIff | mongo-r3.6.18/buildscripts/update_test_lifecycle.py:345-355 | a tag comes back from the combination found in it exactly when it is `unreliable` followed by up to three non-empty components |
| TagNames.CombinationIsNamed | mongo-r3.6.18/buildscripts/update_test_lifecycle.py:345-355 | the combination found in any tag whatever has named components |
| TagNames.TagForInjective | mongo-r3.6.18/buildscripts/update_test_lifecycle.py:345-355 | different combinations of a test, with named components, have different tags |
| TestLifecycle.TagsConfig.AddTag | mongo-r3.6.18/buildscripts/ciconfig/tags.py:69-77 | adds and sorts, with null and missing entries replaced; true exactly when the tag was not there |
| TestLifecycle.TagsConfig.RemoveTag | mongo-r3.6.18/buildscripts/ciconfig/tags.py:79-91 | removes every occurrence and an emptied pattern; true exactly when the tag was there |
| TestLifecycle.TagsConfig.RemoveTestPattern | mongo-r3.6.18/buildscripts/ciconfig/tags.py:93-98 | the pattern is gone with all its tags, every other tag list and all test kinds are as before |
| TagsConfigs.AddTagHas | mongo-r3.6.18/buildscripts/ciconfig/tags.py:69-77 | after an addition exactly this tag is new, for any configuration |
| TagsConfigs.RemoveTagHas | mongo-r3.6.18/buildscripts/ciconfig/tags.py:79-91 | after a removal exactly this tag is gone, for any configuration |
| TestLifecycle.TagsConfigWithChangelog.AddTag | mongo-r3.6.18/buildscripts/update_test_lifecycle.py:540-547 | an addition cancels a logged removal or is logged; the tags cleaned up stay as they are |
| TestLifecycle.TagsConfigWithChangelog.RemoveTag | mongo-r3.6.18/buildscripts/update_test_lifecycle.py:549-556 | a removal cancels a logged addition or is logged |
| TestLifecycle.TagsConfigWithChangelog.Tag | mongo-r3.6.18/buildscripts/update_test_lifecycle.py:540-547 | exactly the given tag is new, and the logs stay the difference to the configuration read; what is stored for it changes as `Plus` says, with the rate given, for every other tag nothing changes |
| TestLifecycle.TagsConfigWithChangelog.Untag | mongo-r3.6.18/buildscripts/update_test_lifecycle.py:549-556 | exactly the given tag is gone, and the logs stay the difference to the configuration read; what is stored for it changes as `Minus` says, with the rate given, for every other tag nothing changes |
| TagsConfigs.LogCancelNoEmpty | mongo-r3.6.18/buildscripts/update_test_lifecycle.py:526-538 | cancelling leaves no empty dictionary in the log |
| TagsConfigs.LogsAreTheDifference | mongo-r3.6.18/buildscripts/update_test_lifecycle.py:526-556 | over every run of additions and removals from any configuration, added is exactly now minus before, removed exactly before minus now, and no dictionary in a log is empty |
| TagsConfigs.LogPutRate | mongo-r3.6.18/buildscripts/update_test_lifecycle.py:540-556 | storing a tag changes the rate of this tag only, to the one given |
| TagsConfigs.LogCancelRate | mongo-r3.6.18/buildscripts/update_test_lifecycle.py:526-538 | cancelling removes the rate of this tag only |
| TagsConfigs.ApplyState | mongo-r3.6.18/buildscripts/update_test_lifecycle.py:540-556 | an operation changes what is stored for its own tag only, by adding or cancelling |
| TagsConfigs.RatesAreOfTheLastChange | mongo-r3.6.18/buildscripts/update_test_lifecycle.py:526-556 | over every run from any configuration, a rate that is stored is the one given by the last operation that changed whether the tag is there, and no tag is stored on both sides |
| TagsConfigs.LogStates | mongo-r3.6.18/buildscripts/update_test_lifecycle.py:526-556 | over every run a tag is stored as added exactly if it is there now and was not first, as removed exactly the other way round |
| TagsConfigs.RunsKeepCanonical | mongo-r3.6.18/buildscripts/ciconfig/tags.py:69-91 | every run keeps tag lists non-empty, sorted and free of duplicates |
| TestLifecycle.RunsKeepTagsOrdered | mongo-r3.6.18/buildscripts/update_test_lifecycle.py:271-275 | with `compare_tags` as the order, every run keeps each list strictly ascending by components |
| TagsConfigs.ModifiedIffLogged | mongo-r3.6.18/buildscripts/ciconfig/tags.py:100-102 | from a canonical configuration, `is_modified` holds exactly when the changelog is not empty or an addition named a new test kind |
| TestLifecycle.Perform | mongo-r3.6.18/buildscripts/update_test_lifecycle.py:519-556 | a whole run on the object gives the changelog of the run on values, and `is_modified` holds exactly when that is not empty or an addition named a new test kind |
| TagsConfigs.NewKindStaysBehind | mongo-r3.6.18/buildscripts/ciconfig/tags.py:71-89 | an addition under a new kind, taken back, leaves the log empty and the configuration changed |
| TagsConfigs.KindsAfter | mongo-r3.6.18/buildscripts/ciconfig/tags.py:69-91 | after any run the test kinds are those from before and those named by an addition |
| TestLifecycle.UpdateLifecycle | mongo-r3.6.18/buildscripts/update_test_lifecycle.py:252-268 | exactly the tags of summaries that pass the given test are added or removed, other kinds untouched, the logs kept right; what is stored for a tag is the failure rate of the first summary that selects it |
| TestLifecycle.FirstRateIs | mongo-r3.6.18/buildscripts/update_test_lifecycle.py:252-268 | the rate meant is that of the first summary for the test and tag that passes, and there is one exactly when some summary does |
| TestLifecycle.WordingDiffersIff | mongo-r3.6.18/buildscripts/update_test_lifecycle.py:204-219 | the two tests differ from their wording exactly at the minimum number of runs or at the rate itself, and there the code counts the test in |
| TestLifecycle.RemoveStaleTags | mongo-r3.6.18/buildscripts/update_test_lifecycle.py:428-442 | of one test exactly the tags go whose combination has the size of the level and did not run, and what is stored for them is the rate 0 |
| TestLifecycle.UpdateLevel | mongo-r3.6.18/buildscripts/update_test_lifecycle.py:412-442 | for every test and every tag, however shaped: there afterwards exactly if it was there or unreliable, and not reliable, and not stale for a listed test; with the rates stored: those of the first unreliable summary, then of the first reliable one, then 0 |
| TestLifecycle.UpdateTags | mongo-r3.6.18/buildscripts/update_test_lifecycle.py:358-442 | all levels in turn, for every test and tag; the changelog stays the difference; with the rates stored |
| TestLifecycle.LevelDecides | mongo-r3.6.18/buildscripts/update_test_lifecycle.py:412-442 | for a combination of the level: gone if reliable, there if unreliable and not reliable, gone if it did not run and its test is listed, unchanged otherwise |
| TestLifecycle.LevelIgnoresOthers | mongo-r3.6.18/buildscripts/update_test_lifecycle.py:428-433 | a level leaves the tags of combinations of another size alone |
| TestLifecycle.OwnLevelDecides | mongo-r3.6.18/buildscripts/update_test_lifecycle.py:367-371 | over all levels only the one of a combination's own size decides about its tag |
| TestLifecycle.EmptyVariantIsMistaken | mongo-r3.6.18/buildscripts/update_test_lifecycle.py:345-355 | a distro tag with an empty variant yields a combination of the variant level |
| TestLifecycle.OtherTagIsMistaken | mongo-r3.6.18/buildscripts/update_test_lifecycle.py:412-458 | a tag that is not of the expected shape is never added nor taken for reliable by any level, and a level removes it from a listed test exactly when it has the size of the combination found in the tag and that did not run; for another beginning or too many components that combination is the whole test |
| TestLifecycle.OtherTagStaysIff | mongo-r3.6.18/buildscripts/update_test_lifecycle.py:367-442 | over all levels such a tag stays exactly when it was there and, if its test is listed, no level takes it for stale |
| TestLifecycle.CleanUpTag | mongo-r3.6.18/buildscripts/update_test_lifecycle.py:558-561 | removes the tag and records it as cleaned up, not as removed |
| TestLifecycle.CleanUpTagsOf | mongo-r3.6.18/buildscripts/update_test_lifecycle.py:486-488 | the loop over the live list leaves what the position-by-position walk of the shrinking list leaves, and no other list changes; exactly what it removes is recorded, in order; the two logs stay as they are, and so stay the difference exactly when nothing is removed |
| TestLifecycle.CleanUpCompleteIff | mongo-r3.6.18/buildscripts/update_test_lifecycle.py:477-488 | no irrelevant tag stays if no two irrelevant tags stand next to each other, and in a list without repeated tags only then |
| TestLifecycle.RepeatedTagHelps | mongo-r3.6.18/buildscripts/update_test_lifecycle.py:486-488 | a list with a repeated tag that is cleaned completely although two irrelevant tags are neighbours |
| TestLifecycle.CleanedIsGone | mongo-r3.6.18/buildscripts/update_test_lifecycle.py:486-488 | the tags that stay are exactly those not recorded, and no relevant tag is recorded |
| TestLifecycle.CleanUpBreaksLogs | mongo-r3.6.18/buildscripts/update_test_lifecycle.py:558-561 | removing a tag without an entry leaves logs that are not the difference |
| TestLifecycle.CleanUpTest | mongo-r3.6.18/buildscripts/update_test_lifecycle.py:563-566 | exactly the tags of the pattern go, and it is recorded with an empty list, other records unchanged |
| TestLifecycle.CleanUpMissesOne | mongo-r3.6.18/buildscripts/update_test_lifecycle.py:486-488 | of two irrelevant tags the second stays |
| ErrorCodes.Codes.ReadErrorCodes | mongo-r3.6.18/buildscripts/errorcodes.py:136-176 | the callback with its dictionaries collects the locations of repeated codes in order, and the first zero code once more |
| ErrorCodes.DuplicatesExactly | mongo-r3.6.18/buildscripts/errorcodes.py:145-158 | a location is collected exactly as often as it was found if its code occurs more than once, else not at all |
| ErrorCodes.DuplicatesInOrder | mongo-r3.6.18/buildscripts/errorcodes.py:145-158 | the locations of a repeated code are collected in the order they were found, the first one included; of another code none |
| ErrorCodes.ErrorIff | mongo-r3.6.18/buildscripts/errorcodes.py:160-176 | a location found is an error exactly when its code is zero or occurs more than once |
| ErrorCodes.NoErrorsIff | mongo-r3.6.18/buildscripts/errorcodes.py:129-133 | there are no errors exactly when all codes differ and none is zero |
| ErrorCodes.Codes.GetNextCode | mongo-r3.6.18/buildscripts/errorcodes.py:115-126 | one more than the highest code, or the type error exactly when fewer than two codes are known |
| ErrorRepair.RepairIsSubstitution | mongo-r3.6.18/buildscripts/errorcodes.py:195-216 | repairs one after the other, each in the text left by the one before, equal the simultaneous substitution in the original text; the zero check never fails |
| ErrorRepair.WorklistMembers | mongo-r3.6.18/buildscripts/errorcodes.py:187-195 | the work list holds exactly the locations of zero codes among the errors |
| ErrorRepair.WorklistDescends | mongo-r3.6.18/buildscripts/errorcodes.py:195-196 | the work list goes strictly backward within each file |
| ErrorRepair.WorklistByFile | mongo-r3.6.18/buildscripts/errorcodes.py:195-196 | the files of the work list come in descending order of their names |
| ErrorRepair.SourceFiles.ReplaceBadCodes | mongo-r3.6.18/buildscripts/errorcodes.py:179-216 | the loop over the deduplicated, sorted, reversed zero codes makes these repairs; at a failed check it stops with the repairs made so far |
| ErrorRepair.RepairIsRight | mongo-r3.6.18/buildscripts/errorcodes.py:187-216 | the zero check never fails; every file is the original with new codes at exactly the places of the codes to rewrite; the new codes are pairwise distinct and above all codes found |
| ErrorRepair.RewrittenIffListed | mongo-r3.6.18/buildscripts/errorcodes.py:160-196 | a location is rewritten exactly when it was found, its code is a zero, and that is `0` or occurs at least twice |
| ErrorRepair.LoneLongZeroStays | mongo-r3.6.18/buildscripts/errorcodes.py:145-165 | a zero of several digits that occurs once is no error and is not rewritten |
| ErrorRepair.RepairedCodeReads | mongo-r3.6.18/buildscripts/errorcodes.py:207-214 | reading the repaired file at the place of any location found gives its code as before, or, if it was rewritten, the new code followed by all old digits but the first |
| ErrorRepair.ReadsBackIffOneDigit | mongo-r3.6.18/buildscripts/errorcodes.py:207-214 | a rewritten code reads back as the new number exactly when it had a single digit |
| ErrorRepair.NewCodesDiffer | mongo-r3.6.18/buildscripts/errorcodes.py:211-216 | different repairs write different codes |
| ErrorRepair.Fix | mongo-r3.6.18/buildscripts/errorcodes.py:268-282 | with at least two codes found, the files end up repaired as above with a next code above all found; with fewer the type error leaves every file as it was |
| ErrorRepair.TwoDigitZeroKeepsOne | mongo-r3.6.18/buildscripts/errorcodes.py:210-212 | a file with two codes `00`, from the locations found to the repaired text, in which both keep their second digit |
| CachePrune.PruneCache | mongo-r3.6.18/buildscripts/scons_cache_prune.py:54-101 | for any pattern of failures: no item lost, none tried was used more recently than one left, the tracked size counts exactly the items left and those whose removal failed, and as few items as possible are tried until it is below the target; false exactly when it is not below after all were tried |
| CachePrune.Trim | mongo-r3.6.18/buildscripts/scons_cache_prune.py:74-95 | the loop takes items off the end of the sorted list and stops as soon as the size is below the target |
| CachePrune.OldestFirst | mongo-r3.6.18/buildscripts/scons_cache_prune.py:71-80 | an item taken off the end of the sorted list was used no later than any item left |
| CachePrune.SizeIsConserved | mongo-r3.6.18/buildscripts/scons_cache_prune.py:88-91 | the tracked size is the initial total less the sizes actually removed |

## Left out

- All style checks of cpplint that only match patterns and report messages.
- The lexing of a line in `NestingState.Update`: directives, declarations, parenthesis counts and braces of a line are its input, because the source finds them with regular expressions and looks ahead in the file.
- `_PreprocessorInfo` is a value, not an object: only `pp_stack` ever refers to it, so its own identity is not modelled.
- Matchers.GetTextInside: starts after the search for the start pattern, whose end is an input.
- SCons emitters, scanners and system libraries of `libdeps.py`; the direct dependencies and their kinds are inputs.
- gdb frame and symbol access of `mongo_lock.py`; the records (waiter, lock, holder) are inputs. Node keys are values with a kind and a number, not formatted strings.
- Parallel.ReachableInvariant: the unfinished-task counter of the queue, which nothing waits for, and keyboard interrupts are not modelled; the polling main thread lets its turns pass.
- TestLifecycle.CleanUpTagsOf: takes the test for relevance, which compares a tag with task, variant and distro names of the project, as an input.
- Test history and `tf.Report`: the summaries and the combinations of each level are inputs.
- The outer loops of `clean_up_tags` over kinds and patterns, which go over copies of the keys, and the check of patterns against the file system.
- Git, JIRA and YAML parts of the lifecycle tool.
- The regular expressions of `errorcodes.parseSourceFiles`; the locations found are inputs. Line and column numbers are only printed.
- Listing the cache directory and the names of temporary files in `scons_cache_prune.py`; floating-point rounding of its threshold; the removal of the whole directory after a failure. The quota is given in bytes.
- Dictionaries and lists of the tags configuration and of the waits-for graph are `map` and `seq` fields; aliasing between their inner lists is modelled only where the code depends on it, in the loop of `clean_up_tags`.
- TestLifecycle.CleanUpCompleteIff: only one direction for lists in which a tag is repeated, which no run from a canonical configuration produces (`RunsKeepCanonical`).
- ErrorRepair.RepairedCodeReads: takes from the scanner's patterns that a code is a whole run of digits.
