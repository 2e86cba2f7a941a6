# Kconfig: expressions, evaluation, menus and configuration files

A model of the Kconfig engine in `support/kconfig` and of its second implementation,
`support/scripts/kconfiglib.py`, with proofs of what the two promise.

- **Expressions.** Dependencies are trees over the lattice n < m < y; `&&` is min, `||` is
  max, `!` is 2 - x. The passes that rewrite them are functions on expression values
  (`EliminateYn`, `ExprEq`, `Transform`, `Join`, `Extract`, `Compare`) with their effect on the
  value proved in every environment. `ExprHeap` has the passes in the C form, overwriting
  nodes of a heap-allocated tree and passing slots around, each proved equal to its function.
  The duplicate elimination (`Slots`, `Steps`, `Merge`, `Contradict`, `Dups`) works on an
  array of slots: that two `struct expr **` arguments alias is that two indices are equal.
- **Evaluation.** `SymbolTable` defines what a symbol is worth without any memory, `SymbolEval`
  is the memoised evaluator, `SymbolCheck` the search for recursive dependencies, `SymbolSet`
  setting and toggling, `Defconfig` the minimal configuration.
- **Menus.** `MenuTree`, `MenuFinalize` and `MenuWalk` work on the linked tree
  (`list`, `next`, `parent`) in place; `Inherit` is what one entry makes of the
  dependencies from above, `HandDown` the recursion that hands them down.
- **kconfiglib.** `KconfiglibExpr` is its printer, parser and expression builder;
  `KconfiglibSymbols` and `KconfiglibMeaning` say what symbols and choices are worth without
  caches; `KconfiglibDepend`, `KconfiglibFresh`, `KconfiglibOrder` and `KconfiglibCache` are the
  caches, their invalidation and the dependency sets, `KconfiglibRuns` whole sessions,
  `KconfiglibChoice` and `KconfiglibNumber` say of choices and numbers, without the functions
  that compute them, what those are worth, `KconfiglibAssign` which values are offered for
  assignment and `KconfiglibStale` what goes wrong outside the assumptions.
- **Both.** `Agreement` compares the values the two implementations give,
  `Disagreement` has a configuration of which they differ.
- **Texts.** `StringCodec` has the escaping of string values in both implementations.

An environment is *well-formed* when y, m and n have their values and names, no bool symbol
is m, the string of a bool or tristate symbol is the name of its value, and different
constants have different strings. `SymbolTable.MeaningEnvWellFormed` proves that evaluation
produces no others. A *rank* is any numbering of symbols along which every dependency
descends; that there is one is the same as there being no cycle, and the meaning of a
configuration is proved not to depend on which one is taken.

## What does not hold

Where the code does not do what its comments or names say, the code is modelled as it is,
with an input that shows it and the condition under which it does.

- `expr_eliminate_dups2` calls `(A || B) && (!A && !B)` contradictory, which is m when A and B
  are (`Extracting.ContradictsAtMod`). The replacement is right exactly when not both operands
  are m (`Extracting.ContradictsValue`), and the whole pass keeps every value other than m
  (`Dups.EliminateDups`).
- `expr_trans_compare` compares with y as if every symbol whose text is not y were n, and
  with n as if every symbol whose text is not n were y (`Comparing.TransCompareRounds`): m, like
  any string, number or untyped symbol with a text other than y and n, counts as n in the one
  and as y in the other. On normal forms of bool and tristate symbols it is right, in all four forms, if and
  only if no symbol is m (`Comparing.TransCompareExactly`); `!x` with x at m shows it
  (`Comparing.TransCompareNegation`). For a symbol of another type alone it is right if and only
  if its text is n (`Comparing.TransCompareText`).
- So `menu_finalize` can put an entry below one that is out of sight: with a dependency
  `!A && (S || A != n)` it goes below S, if S has a prompt shown when `A = n`
  (`Comparing.AbsorbedAtMod`), and with A at m and S at n it is m while that prompt is n
  (`Comparing.UnlessShownAtMod`). What is put below others shows only with their symbol or their
  prompt if and only if there are not both a symbol at m and one at n
  (`MenuFinalize.AbsorbedExactly`).
- `expr_trans_bool` is commented as turning `FOO!=n` of a bool into `FOO`, but tests for a
  tristate. On the normal forms it is given it then lowers y to m (`Transforming.TransBoolLowers`),
  never to or from n (`Transforming.TransBoolKeepsNo`).
- `expr_depends_symbol` forces a symbol if and only if that is a bool or a tristate
  (`Comparing.DependsForcesExactly`): any other can equal y and count as n
  (`Comparing.TextIsYNotForced`).
- Called from `support/kconfig/zconf.y:511-514`, `sym_check_deps` never returns a symbol, so
  that recursive dependencies are printed but never counted as errors (`SymbolCheck.CheckAll`).
- `sym_set_tristate_value` takes the current value even out of range, and it can change by
  that (`SymbolSet.SameValueChanges`); it stays exactly if the symbol is invisible or the value
  is within visibility and selects (`SymbolSet.SettingTheSameValue`).
- The minimal configuration loses a tristate that is set to m, selected at m, and y by default
  (`Defconfig.PinnedByModule`); it loses nothing exactly when no user value is pinned in this
  way (`Defconfig.MinimalRoundTrip`).
- kconfiglib's `get_assignable_values` lists m for bool symbols and without modules, where it
  cannot be taken on (`KconfiglibAssign.AssignableNotTaken`,
  `KconfiglibAssign.AssignableExactly`); what the symbols of a choice take on is in
  `KconfiglibAssign.ChoiceAssignable`. Setting a symbol that is not modifiable can
  change it (`KconfiglibAssign.UnmodifiableYetModified`), exactly when a default above the
  selects is in force (`KconfiglibAssign.SettingKeeps`).
- A visible kconfiglib choice in mode y need not have a symbol that is y
  (`KconfiglibStale.ForeignDefaultSelected`); it has one exactly when the user's selection
  counts, or it is not optional, has a visible symbol and does not default to a visible symbol
  outside it (`KconfiglibMeaning.ChoiceSymbols`).
- kconfiglib's dependents miss what decides how visible the default of a choice is, if that is
  a symbol outside the choice (`KconfiglibStale.ForeignDefaultStale`); they are complete exactly
  when it reaches the symbols of the choice in another way (`KconfiglibStale.TrackedExactly`).
- In kconfiglib, a change that enables or disables modules otherwise than by setting MODULES
  leaves stale values behind, and so does unsetting MODULES (`KconfiglibStale.ModulesGoStale`).
  A choice can be made to forget what it remembers exactly if it has symbols
  (`KconfiglibStale.ForgetsExactly`, `KconfiglibStale.EmptyChoiceStale`).
- The two implementations differ on a string that defaults to a bool or tristate symbol other
  than n, of which C copies the text n; on a number whose first default in force is no number,
  which kconfiglib passes over for another text; and on a symbol from the environment, if the
  user or the first default in force gives it another one (`Disagreement.DisagreeingMeanings`).
  They give all symbols the same values if and only if there is none of these
  (`Agreement.ImplementationsAgree`).

## Model

| member | source | states |
|---|---|---|
| EliminateYn.YnValue | support/kconfig/expr.c:231-312 | removing y and n from the operands keeps the value in every environment |
| EliminateYn.YnClean | support/kconfig/expr.c:231-312 | the result has no y or n left below AND and OR, clean trees are fixed points, and no tree grows |
| EliminateYn.YnBins | support/kconfig/expr.c:231-312 | what is left has fewer connectives than the input had operands other than y and n, which is what makes duplicate elimination end |
| ExprEq.CancelPairsFactor | support/kconfig/expr.c:130-162 | one common operand has been taken out of both trees: each original is that operand combined with its remainder, in every environment |
| ExprEq.CancelPairsIsDifference | support/kconfig/expr.c:130-162 | on operands free of y and n the two remainders are the bag differences of the operands, whatever the nesting and order |
| ExprEq.EliminateEqReflectsOrder | support/kconfig/expr.c:164-184 | whichever order holds between the reduced expressions held between the originals, in both directions and every environment |
| ExprEq.EqSound | support/kconfig/expr.c:189-229 | expressions found equal have the same value in every environment |
| ExprEq.EqExact | support/kconfig/expr.c:189-229 | on expressions free of y and n it finds equal exactly those that are equal up to order and nesting of operands |
| ExprEq.EqIsEquivalence | support/kconfig/expr.c:189-229 | there it is reflexive, symmetric and transitive |
| ExprEq.CancelPairs | support/kconfig/expr.c:130-162 | the mutual recursion with expr_eq ends: neither tree grows |
| Transforming.TransformValue | support/kconfig/expr.c:636-771 | the value is kept in every well-formed environment, although grown trees are transformed again |
| Transforming.Transform | support/kconfig/expr.c:636-771 | terminates: a weight that doubles below negation never increases |
| Transforming.TransformNormal | support/kconfig/expr.c:636-771 | negation is left only above symbols other than y, m and n, and no bool symbol is compared with one of these |
| Transforming.NormalIsFixed | support/kconfig/expr.c:636-771 | those normal forms are exactly the expressions the pass leaves alone |
| Transforming.TransformIdempotent | support/kconfig/expr.c:636-771 | a second transformation changes nothing |
| Transforming.TransformSubjects | support/kconfig/expr.c:636-771 | the symbols an expression is about stay, each as often as before and in their order |
| Transforming.TransBoolKeepsNo | support/kconfig/expr.c:317-341 | on normal forms the value is never raised and is n before if and only if it is n after |
| Transforming.TransBoolLowers | support/kconfig/expr.c:317-341 | counterexample: the normal form A != n is y for a tristate A at m and becomes m |
| Transforming.TransBoolTestFree | support/kconfig/expr.c:317-341 | no test of a tristate for being other than n is left at any depth, and expressions without any are left alone |
| Transforming.TransBoolKeepsSharp | support/kconfig/expr.c:317-341 | where no tristate is m the value of every expression is kept |
| Transforming.TransBoolUnderNegation | support/kconfig/expr.c:317-341 | counterexample: below a negation a value of n becomes m |
| Joining.JoinOrValue | support/kconfig/expr.c:346-408 | a merged pair of alternatives has the maximum of both values |
| Joining.JoinAndValue | support/kconfig/expr.c:410-502 | a merged pair of conjuncts has the minimum of both values |
| Joining.JoinValue | support/kconfig/expr.c:346-502 | merging is exact in every well-formed three-valued environment |
| Joining.JoinShape | support/kconfig/expr.c:346-502 | a merged operand is no bigger, stays normal, does not become a list of the same operator and has fewer live operands unless one of the two was a unit |
| Joining.JoinExactly | support/kconfig/expr.c:346-502 | merged are exactly operands that expr_eq finds equal, and the listed pairs about one bool or tristate symbol in either order |
| Extracting.ExtractEqFactor | support/kconfig/expr.c:848-875 | what has been collected and the two remainders still make up both originals, in every environment |
| Extracting.ExtractFactor | support/kconfig/expr.c:826-846 | the extracted part combined with each remainder gives back each original |
| Extracting.ExtractEqCancels | support/kconfig/expr.c:848-875 | without y and n the remainders are those of expr_eliminate_eq, and nothing is extracted only if nothing was equal |
| Extracting.ContradictsValue | support/kconfig/expr.c:575-604 | two operands that pass the test decide the operator if and only if they are not both m |
| Extracting.ContradictsExact | support/kconfig/expr.c:575-604 | the test succeeds exactly when the negation of the one is, as a bag of operands, contained in the other |
| Extracting.ContradictsAtMod | support/kconfig/expr.c:575-604 | counterexample: two tristates at m |
| Merging.JoinStep | support/kconfig/expr.c:504-554 | merging two slots keeps the value of all slots together and lowers the number of live operands by what is counted |
| Merging.MergedSlotsStep | support/kconfig/expr.c:504-554 | one pass over all pairs of slots, two of which are the same exactly if their positions are: the combined value is exact, every counted change pays, and nothing changes if and only if no pair can be merged |
| Merging.MergePairs | support/kconfig/expr.c:504-554 | in place, with two arguments that may stand on the same slots: the pass as on sequences |
| Merging.MergePair | support/kconfig/expr.c:504-554 | in place, two operands: the first one searched inside, then the later slot takes what the two are merged into |
| Merging.MergeInside | support/kconfig/expr.c:504-554 | the whole merge pass is exact in every well-formed three-valued environment, and it leaves an expression alone if and only if there is nothing to merge at any depth |
| Merging.MergedIsIrreducible | support/kconfig/expr.c:346-554 | what it leaves alone has, at every level above negations, no two operands about one symbol that reduce to one expression, and no two that are equal up to order and nesting |
| Contradicting.ContradictionStep | support/kconfig/expr.c:556-609 | replacing a contradicting operand changes the combined value only where that was m |
| Contradicting.ClearedSlotsStep | support/kconfig/expr.c:556-609 | one pass over all operands and inner nodes: values other than m survive, and nothing changes if and only if nothing contradicts anything |
| Contradicting.ContradictPairs | support/kconfig/expr.c:556-609 | in place: the pass as on sequences |
| Contradicting.ContradictInside | support/kconfig/expr.c:556-609 | in place, for a whole expression, nested operators included: values other than m survive, and it is left alone if and only if nothing contradicts anything |
| Contradicting.ConsistentIsUncontradicted | support/kconfig/expr.c:575-604 | what it leaves alone has, at every level above negations, no && among the operands of an or-list (or the other way round) whose negation has all its operands among those of the list |
| Dups.EliminateDups | support/kconfig/expr.c:612-634 | the loop ends; every value other than m survives in every well-formed environment; the result has nothing to merge and no contradiction, by the tests of the code and by what they mean; no y or n is left in it after a change, and it is the expression itself if and only if the tests find nothing in that; normal forms stay normal |
| Dups.LaterStays | support/kconfig/expr.c:533-549 | of two equal operands the later one stays: `x op y op x` becomes `y op x` |
| Dups.YnAfterChange | support/kconfig/expr.c:612-634 | a round with changes and its clean-up strictly lower the number of AND and OR |
| ExprHeap.EliminateYnNode | support/kconfig/expr.c:231-312 | overwriting nodes in place computes the function, with the root node kept and no node outside the tree touched |
| ExprHeap.TransBoolNode | support/kconfig/expr.c:317-341 | in place, the same expression as the function gives |
| ExprHeap.TransformNode | support/kconfig/expr.c:636-771 | in place, with new nodes and a possibly different root: the function's result, as an unshared tree made of old and new nodes only |
| ExprHeap.Distribute | support/kconfig/expr.c:716-732 | De Morgan by reusing the operand as the negation of its own left operand |
| ExprHeap.CopyNode | support/kconfig/expr.c:62-97 | a fresh tree of the same expression, the original untouched |
| ExprHeap.CancelPairsNodes | support/kconfig/expr.c:130-162 | on two slots of a heap, the second call seeing what the first left: the function's pair, nothing shared between the slots |
| ExprHeap.EliminateEqNodes | support/kconfig/expr.c:164-184 | in place, the reduced pair of the function |
| ExprHeap.EqNodes | support/kconfig/expr.c:189-229 | decides as the function does and leaves both trees untouched, although it reduces copies in place |
| ExprHeap.ExtractEqNodes | support/kconfig/expr.c:848-875 | in place, collected part and remainders as the function gives them, none of the three sharing a node |
| ExprHeap.ExtractNodes | support/kconfig/expr.c:826-846 | in place, the extracted part and the cleaned remainders |
| Comparing.TransCompareRounds | support/kconfig/expr.c:877-936 | for every expression and environment, the comparison has the value it should have once every symbol is rounded to y or n by its text, strings and numbers included |
| Comparing.TransCompareExactly | support/kconfig/expr.c:877-936 | the comparisons with y and with n come out right of all normal forms over bool and tristate symbols if and only if no symbol is m |
| Comparing.RoundingKeeps | support/kconfig/expr.c:877-936 | on bool and tristate symbols rounding keeps whether an expression is y, or n, wherever nothing negated is m |
| Comparing.TransCompareNegation | support/kconfig/expr.c:908-909 | for a negation, with nothing negated inside its operand being m, the comparison is right if and only if the operand is not m |
| Comparing.TransCompareText | support/kconfig/expr.c:928-929 | a symbol of any other type is compared rightly if and only if its text is n |
| Comparing.TransCompareSharp | support/kconfig/expr.c:877-936 | a comparison with y or n is never m |
| Comparing.DependsForces | support/kconfig/expr.c:797-824 | an expression that depends on a bool or tristate symbol is n whenever the symbol is |
| Comparing.DependsForcesExactly | support/kconfig/expr.c:797-824 | over all expressions and environments, depending on a symbol forces it to be other than n if and only if it is a bool or a tristate |
| Comparing.DependsExactly | support/kconfig/expr.c:797-824 | an expression depends on a symbol if and only if the symbol, its being y, its being m or its not being n is one of the operands of its &&, wherever it stands |
| Comparing.DependsContains | support/kconfig/expr.c:773-824 | what depends on a symbol contains it, so that the test before it loses nothing |
| Comparing.VisibilityTest | support/kconfig/menu.c:339-341 | the simplified test `!= n` of a visibility, which keeps the exact value of the comparison in every well-formed environment |
| Comparing.IsSubmenuEntry | support/kconfig/menu.c:343-358 | an entry goes below another if and only if its dependency contains the symbol and has an operand of && that names it, or cancels the test of the prompt to y; in that case it is n wherever the prompt is, every symbol other than the text n counting as y |
| Comparing.ImplicationFound | support/kconfig/menu.c:349-354 | cancelling the dependency out of the prompt's test down to y proves that implication between the rounded visibilities in every environment |
| Comparing.AbsorbedAtMod | support/kconfig/menu.c:339-358 | counterexample: an entry with dependency !A AND (S OR A != n) goes below S with a prompt shown if A = n |
| Comparing.UnlessShownAtMod | support/kconfig/menu.c:339-358 | with A at m and S at n that entry is m and the prompt n |
| Inheriting.Inherit | support/kconfig/menu.c:312-315 | the dependency handed down is the conjunction with what comes from above, exact wherever that is not m; it is that from above itself, unchanged, if the entry adds nothing and duplicate elimination has seen it before |
| Inheriting.InheritVisibility | support/kconfig/menu.c:320-328 | the visibility of a property is exact for a tristate and exact in being n for any other symbol, wherever the conjunction is not m; without a condition it is the dependency of the entry, but for expr_trans_bool |
| Inheriting.InheritDefinition | support/kconfig/menu.c:312-370 | at every entry of a symbol, its definition is given the very dependency that is added to dir_dep, so that the definitions keep mentioning all that dir_dep mentions |
| Inheriting.VisibleUnchanged | support/kconfig/symbol.c:194-201 | the visibility computed for a non-tristate symbol is the same with and without expr_trans_bool |
| Inheriting.PromptVisibilityKeepsNo | support/kconfig/symbol.c:194-197 | the maximum over the prompts is n with it if and only if it is n without it |
| HandingDown.HandDown | support/kconfig/menu.c:311-337 | over a whole tree, every dependency and prompt becomes the conjunction of all from the root, or from the choice, down to it, exact wherever that is not m; for prompts of symbols other than tristates exact in being n |
| HandingDown.ConjunctionStep | support/kconfig/menu.c:313-314 | inexactness at m above does not spread: either an n below decides, or the conjunction is m itself |
| HandingDown.NoMoreThanAbove | support/kconfig/menu.c:287-309 | what an entry gets is at most the symbol of the choice it is in, or else the dependency and the prompt of the entry above it and all that is above |
| MenuTree.SetParents | support/kconfig/menu.c:413-418 | a row of siblings gets another parent, keeping order and all that is below, and its last entry is found |
| MenuFinalize.HoistOne | support/kconfig/menu.c:412-421 | the children of one entry are put behind it among its siblings, with the parent links that go with it |
| MenuFinalize.HoistChildren | support/kconfig/menu.c:372-422 | what is below entries without a prompt, and nothing else, comes after them; the order of the entries is kept and every list is linked to its parent |
| MenuFinalize.AbsorbOne | support/kconfig/menu.c:360-362 | the next entry becomes the last child, finalized, everything else in order |
| MenuFinalize.AbsorbSiblings | support/kconfig/menu.c:343-368 | exactly the entries that go below are taken, one after the other, until the first that does not |
| MenuFinalize.FinalizeChildren | support/kconfig/menu.c:336-337 | every entry of every child is finalized once, in order |
| MenuFinalize.Finalize | support/kconfig/menu.c:279-422 | the tree is the one formed from its first entry by taking the entries that go below, and no others, at every level, with what is below promptless entries taken out again; the rest of the row is untouched; the preorder is unchanged, each entry is finalized exactly once and in that order, and every parent link names the entry whose list contains it |
| MenuFinalize.BelowIsJustified | support/kconfig/menu.c:343-358 | whatever is moved depends on the symbol of the entry it is put below, or implies, rounded, that its prompt shows |
| MenuFinalize.JustifiedMeans | support/kconfig/menu.c:343-358 | wherever an entry that was moved shows, rounded, the symbol of the entry it is below is not n, or the prompt of that entry shows; and really, where nothing negated is m |
| MenuFinalize.AbsorbedExactly | support/kconfig/menu.c:343-358 | without that proviso it holds of all entries that can be moved if and only if no symbol is m or none is n |
| MenuWalk.Walk | support/kconfig/confdata.c:715-729 | the walk ends and visits exactly the preorder, no entry twice |
| SymbolTable.MeaningEquation | support/kconfig/symbol.c:293-440 | the value of a symbol follows from the values of all others by the rules of one evaluation step |
| SymbolTable.MeaningUnique | support/kconfig/symbol.c:293-440 | the meaning does not depend on the rank by which the recursion is justified |
| SymbolTable.MeaningEnvWellFormed | support/kconfig/symbol.c:760-782 | every environment that evaluation produces is well-formed |
| SymbolTable.OutcomeAgree | support/kconfig/symbol.c:293-440 | the outcome of a symbol depends only on the symbols that the cycle checker follows edges to, and on y, m and n |
| SymbolTable.PromptVisibilityExactly | support/kconfig/symbol.c:194-197 | prompts show as the greatest of their conditions |
| SymbolTable.DefaultExactly | support/kconfig/symbol.c:115-125 | the default that counts is the first whose condition is not n |
| SymbolTable.DirDepExactly | support/kconfig/symbol.c:208-217 | a direct dependency is n if and only if its expression is, and never m |
| SymbolTable.RevDepExactly | support/kconfig/symbol.c:218-226 | selects are n if and only if their expression is, and m if and only if that is m and the symbol is not effectively a bool |
| SymbolTable.EdgesExactly | support/kconfig/symbol.c:1192-1210 | the cycle checker follows exactly what the selects of a symbol, the conditions of its other properties and the values of its defaults mention |
| SymbolTable.ContainsExactly | support/kconfig/expr.c:773-795 | an expression contains exactly the symbols that its evaluation reads |
| SymbolTable.TransBoolMentions | support/kconfig/expr.c:317-341 | the pass loses no symbol but n |
| SymbolTable.DefinitionsCover | support/kconfig/menu.c:312-370 | definitions that were given what a direct dependency is the alternative of mention all that it mentions, constants aside |
| SymbolEval.Evaluator.CalcExpr | support/kconfig/expr.c:938-977 | evaluating an expression through the memo gives its value under the meaning of the symbols, evaluating both operands |
| SymbolEval.Evaluator.GetDefaultProperty | support/kconfig/symbol.c:115-125 | finds the first applicable default under the meaning, with its condition's value |
| SymbolEval.Evaluator.CalcVisibility | support/kconfig/symbol.c:189-227 | visibility, direct and reverse dependency are those of the meaning, while other symbols are evaluated on the way |
| SymbolEval.Evaluator.CalcTristate | support/kconfig/symbol.c:339-384 | value and write flag of a bool or tristate are those of the meaning |
| SymbolEval.Evaluator.CalcString | support/kconfig/symbol.c:385-404 | value and write flag of any other symbol are those of the meaning |
| SymbolEval.Evaluator.CalcValue | support/kconfig/symbol.c:293-440 | afterwards the symbol is valid, and every valid symbol that is not being evaluated holds its meaning; with a cycle evaluation still ends |
| SymbolEval.Evaluator.Ask | support/kconfig/symbol.c:293-440 | in whatever order symbols are asked for, each answer is the meaning |
| SymbolEval.Evaluator.SetUser | support/kconfig/symbol.c:442-452 | a new user value leaves nothing valid but y, m and n |
| SymbolCheck.ClosedPathIsCycle | support/kconfig/symbol.c:1153-1216 | a path of edges that returns to one of its symbols rules out any rank |
| SymbolCheck.Checker.CheckDeps | support/kconfig/symbol.c:1255-1287 | the stack is as before after every call, a reported symbol is on it, and without a report everything reachable is finished |
| SymbolCheck.Checker.CheckProperties | support/kconfig/symbol.c:1184-1216 | without a report all symbols the symbol has edges to are finished |
| SymbolCheck.Checker.PrintRecursive | support/kconfig/symbol.c:1081-1151 | what is reported is always on the stack |
| SymbolCheck.CheckAll | support/kconfig/zconf.y:511-514 | a recursive dependency is reported if and only if the graph has a cycle, and the error count stays 0 either way |
| SymbolSet.CheckAndEvaluate | support/kconfig/symbol.c:293-440 | check, then evaluate: without a report every value asked for, in any order, is the meaning |
| SymbolSet.MeaningBelow | support/kconfig/symbol.c:293-440 | a symbol does not depend on the user values of symbols of higher rank |
| SymbolSet.SetMeaning | support/kconfig/symbol.c:493-527 | what a symbol evaluates to after being set, its visibility and selects being the same as before |
| SymbolSet.AcceptedExactly | support/kconfig/symbol.c:474-491 | a symbol that is not more visible than selected accepts nothing, and of any other the accepted values are exactly those it evaluates to when they are set |
| SymbolSet.VisibilityOfBool | support/kconfig/symbol.c:194-224 | a bool symbol's visibility, selects and value are never m, and no value falls below the selects |
| SymbolSet.SettingTheSameValue | support/kconfig/symbol.c:493-498 | setting the present value is kept if and only if the symbol is invisible or the value is within visibility and selects |
| SymbolSet.SameValueChanges | support/kconfig/symbol.c:493-498 | counterexample: a tristate visible with another at m and y by default becomes m when set to y |
| SymbolSet.SetTristateValue | support/kconfig/symbol.c:493-527 | accepts the present value and those in range, changes the user value only then, and invalidates only on a change |
| SymbolSet.ToggleTristateValue | support/kconfig/symbol.c:529-550 | sets the next accepted value in the order n, m, y and around |
| SymbolSet.ToggledUpwards | support/kconfig/symbol.c:529-550 | toggling goes up to the next accepted value, from the last one to the first, and nowhere if there is no other |
| SymbolSet.TogglingCycles | support/kconfig/symbol.c:529-550 | three toggles from an accepted value visit the accepted values, all of them and no others |
| SymbolSet.ToggledMeaning | support/kconfig/symbol.c:529-550 | a changeable symbol has a next value, other than its own, and evaluates to it once toggled, with the same values accepted as before |
| SymbolSet.ToggleAround | support/kconfig/symbol.c:529-550 | toggling and evaluating three times shows exactly the values that were accepted to begin with |
| SymbolSet.AcceptedStays | support/kconfig/symbol.c:474-491 | setting a symbol does not change which values it accepts |
| Defconfig.SymbolRoundTrip | support/kconfig/confdata.c:682-713 | one symbol is reproduced from the minimal configuration if and only if its user value is not fixed by selects or environment while differing from the default |
| Defconfig.MinimalMeaning | support/kconfig/confdata.c:661-732 | with no pinned user value, every symbol re-evaluates to what it was |
| Defconfig.MinimalRoundTrip | support/kconfig/confdata.c:661-732 | the minimal configuration reproduces every symbol if and only if no user value is pinned |
| Defconfig.MinimalExactly | support/kconfig/confdata.c:686-696 | a symbol is in the minimal configuration if and only if it goes into the .config, is more visible than selected, and would be worth something else without its user value |
| Defconfig.NoLineToSpare | support/kconfig/confdata.c:686-696 | with nothing pinned, leaving out any one line changes the value of its symbol |
| Defconfig.PinnedOnlyIf | support/kconfig/symbol.c:784-787 | pinning takes a select of m, a selected symbol without tristate, or the environment; so it never happens with bools and unselected strings |
| Defconfig.PinnedByModule | support/kconfig/confdata.c:661-732 | counterexample: a tristate with the prompt condition T, selected by T, both set to m, comes back as y |
| Defconfig.GetStringDefault | support/kconfig/symbol.c:693-758 | computes the default of the specification through the memoised evaluator |
| Defconfig.WorthKeeping | support/kconfig/confdata.c:683-713 | one entry is written exactly if its symbol belongs to the minimal configuration |
| Defconfig.WriteDefconfig | support/kconfig/confdata.c:661-732 | the lines are the entries of the minimal configuration, each once and in the order in which they come first |
| StringCodec.UnescapeEscape | support/kconfig/symbol.c:915-956 | reading undoes writing for every text, whatever follows the closing quote |
| StringCodec.UnescapeExactly | support/kconfig/confdata.c:154-168 | read are exactly the texts before a quote in which any characters are protected by a backslash, but quotes and backslashes always |
| StringCodec.EscapedSize | support/kconfig/symbol.c:915-933 | the computed size is that of the escaped text with its quotes and the NUL |
| StringCodec.EscapeStringValue | support/kconfig/symbol.c:915-956 | the escaped text and its quotes fill the computed buffer exactly |
| StringCodec.UnescapeInPlace | support/kconfig/confdata.c:154-169 | the in-place loop leaves the unescaped text, NUL-terminated, exactly when there is a closing quote, and touches nothing before it |
| StringCodec.QuotesUndone | support/scripts/kconfiglib.py:306-309 | replacing quotes and replacing them back is the identity on every text |
| StringCodec.BackslashesUndone | support/scripts/kconfiglib.py:306-309 | and so is doubling and halving backslashes |
| StringCodec.LoadWritten | support/scripts/kconfiglib.py:2953-2957 | the two replaces on loading undo the two replaces on writing |
| StringCodec.WritersAgree | support/scripts/kconfiglib.py:2953-2957 | both implementations write the same text for a value |
| KconfiglibExpr.Parser.ParseExpr | support/scripts/kconfiglib.py:846-852 | the loop over a token cursor computes the recursive grammar and fails exactly when that does |
| KconfiglibExpr.Parser.ParseOrTerm | support/scripts/kconfiglib.py:854-860 | the same one level down |
| KconfiglibExpr.Parser.ParseFactor | support/scripts/kconfiglib.py:862-910 | the same for parentheses, negations, relations and leaves, m being rewritten in conditions |
| KconfiglibExpr.ParsePrint | support/scripts/kconfiglib.py:2164-2188 | printing any expression and parsing it back gives its flattening and leaves the tokens that follow |
| KconfiglibExpr.FlatValue | support/scripts/kconfiglib.py:1449-1516 | the expression read back has the same value in every environment, with m worth m && MODULES if it is read as a condition |
| KconfiglibExpr.RoundTrip | support/scripts/kconfiglib.py:2128-2188 | the round trip keeps the value, and the tree itself if and only if that is flat |
| KconfiglibExpr.Precedence | support/scripts/kconfiglib.py:846-880 | an AND inside an OR is printed without parentheses and read back as one |
| KconfiglibExpr.FlatIsFlat | support/scripts/kconfiglib.py:846-860 | with at least two operands to every operator, what is read back is flat |
| KconfiglibExpr.MakeValue | support/scripts/kconfiglib.py:1953-2005 | the constructors that merge lists and drop constants compute the maximum and the minimum, no expression counting as y, and keep flat expressions flat |
| KconfiglibExpr.MakeOrder | support/scripts/kconfiglib.py:1981-2002 | the new operator has exactly the operands of both, those that were in a list already first |
| KconfiglibMeaning.OutcomeSame | support/scripts/kconfiglib.py:1548-1593 | the value of a symbol depends only on what _build_dep records for its choice's symbols, and on MODULES only if m can occur in it |
| KconfiglibMeaning.MeaningEquation | support/scripts/kconfiglib.py:2287-2445 | the value of a symbol follows from those of all others by the rules of get_value |
| KconfiglibMeaning.MeaningUnique | support/scripts/kconfiglib.py:2287-2445 | it does not depend on the order by which the recursion is justified |
| KconfiglibMeaning.FullTyped | support/scripts/kconfiglib.py:2352-2354 | only tristates and the symbol m are ever m |
| KconfiglibMeaning.Unaffected | support/scripts/kconfiglib.py:2966-2994 | user values changed within a set closed under siblings and whatever may ask for its symbols leave every symbol outside it as it was, modules being the same |
| KconfiglibMeaning.ModulesKept | support/scripts/kconfiglib.py:1540-1542 | modules can only be enabled or disabled by a change that reaches MODULES |
| KconfiglibMeaning.SelectionFound | support/scripts/kconfiglib.py:3173-3216 | in mode y there is a selection among the symbols of the choice if and only if the user's counts, or the choice is not optional, has a visible symbol and does not default to a visible one outside |
| KconfiglibMeaning.ChoiceSymbols | support/scripts/kconfiglib.py:2311-2322 | in mode y, whatever other symbols are worth, at most one symbol of a choice is y, and one is under exactly that condition |
| KconfiglibMeaning.ChoiceExactlyOne | support/scripts/kconfiglib.py:2311-2322 | the same of whole configurations; a choice that defaults to its own symbols, is not optional and has a visible one has exactly one that is y |
| KconfiglibChoice.VisibleExactly | support/scripts/kconfiglib.py:2259-2275 | when a choice and its symbols show, and when as m, by their prompts |
| KconfiglibChoice.ModeExactly | support/scripts/kconfiglib.py:3292-3303 | when a choice is in mode n and when in mode m |
| KconfiglibChoice.SelectionExactly | support/scripts/kconfiglib.py:3173-3216 | in mode y, and in no other, a choice selects what the user has, if fully visible, or if it is not optional the first default in force, if visible, or else the first visible symbol |
| KconfiglibChoice.ChoiceSymbolExactly | support/scripts/kconfiglib.py:2308-2322 | what a symbol of a choice is worth in each mode and when it is written |
| KconfiglibChoice.ChoiceMeaning | support/scripts/kconfiglib.py:2308-2322 | the same of whole configurations |
| KconfiglibNumber.RangeExactly | support/scripts/kconfiglib.py:2373-2392 | the first range in force applies, with bounds that are no numbers counting as 0 |
| KconfiglibNumber.UserNumber | support/scripts/kconfiglib.py:2394-2407 | a user value is taken, as it stands, if and only if the symbol is visible and it is a number within the range in force |
| KconfiglibNumber.ClampedIsNearest | support/scripts/kconfiglib.py:2421-2433 | a number brought into the range is the nearest one there, and its own text if it is in the range already |
| KconfiglibNumber.DefaultTaken | support/scripts/kconfiglib.py:2409-2442 | without a user value, the first default in force that is a number counts, brought into the range; without one, the low bound if above 0, or else the text of the last default in force |
| KconfiglibNumber.NumberMeaning | support/scripts/kconfiglib.py:2372-2442 | the same of int and hex symbols of whole configurations, and when they are written |
| KconfiglibDepend.GroupReaches | support/scripts/kconfiglib.py:2966-2994 | what the symbols of a choice reach on their own, with the siblings, is the least closed set around each of them |
| KconfiglibDepend.DependentUnique | support/scripts/kconfiglib.py:2966-2984 | there is only one such set |
| KconfiglibDepend.OutsideKeeps | support/scripts/kconfiglib.py:2447-2486 | a symbol outside _get_dependent keeps its value when another is set or unset, modules being the same |
| KconfiglibDepend.ModulesOutside | support/scripts/kconfiglib.py:2471-2476 | setting or unsetting a symbol leaves modules alone unless it is MODULES or MODULES is among its dependents |
| KconfiglibDepend.AssignedFits | support/scripts/kconfiglib.py:2865-2928 | user values always fit their type and selections belong to their choice |
| KconfiglibChoice.AssignedExactly | support/scripts/kconfiglib.py:2865-2928 | a value that fits a defined symbol replaces its value and nothing else but, if y or m, the selection and mode of its choice; any other is ignored |
| KconfiglibChoice.UnsetUndoes | support/scripts/kconfiglib.py:2930-2936 | unsetting a symbol leaves the same whether it was set just before or not |
| KconfiglibChoice.LastLineWins | support/scripts/kconfiglib.py:300-346 | after loading a file a symbol has the value of its last line that is taken over |
| KconfiglibFresh.Survive | support/scripts/kconfiglib.py:2849-2863 | what invalidation leaves in the caches is still right after the change |
| KconfiglibFresh.SurviveNothing | support/scripts/kconfiglib.py:596-598 | after invalidating everything the caches are right for any user values |
| KconfiglibFresh.WithoutTwice | support/scripts/kconfiglib.py:2861-2863 | the order and grouping of invalidations does not matter |
| KconfiglibCache.Configuration.EvalTree | support/scripts/kconfiglib.py:1449-1516 | the short-circuiting loops over cached values give the minimum or maximum over the cache-free values of all operands |
| KconfiglibCache.Configuration.EvalExpr | support/scripts/kconfiglib.py:1435-1447 | m counts as y exactly without modules |
| KconfiglibCache.Configuration.GetVisibility | support/scripts/kconfiglib.py:2259-2275 | cached or not, the visibility of cache-free evaluation |
| KconfiglibCache.Configuration.GetMode | support/scripts/kconfiglib.py:3292-3303 | the mode of cache-free evaluation |
| KconfiglibCache.Configuration.GetSelection | support/scripts/kconfiglib.py:3173-3193 | cached or not, the selection of cache-free evaluation |
| KconfiglibCache.Configuration.CalcNumber | support/scripts/kconfiglib.py:2372-2442 | an int or hex value under ranges, clamping and defaults that are no numbers, as in cache-free evaluation |
| KconfiglibCache.Configuration.GetValue | support/scripts/kconfiglib.py:2287-2445 | cached or not, the value of cache-free evaluation, with all caches right afterwards |
| KconfiglibCache.Configuration.BuildDep | support/scripts/kconfiglib.py:1548-1593 | every symbol is linked to exactly the symbols that mention it in an expression of theirs or of their choice |
| KconfiglibCache.Configuration.GetDependent | support/scripts/kconfiglib.py:2966-2994 | the set is exactly everything else that can be reached through dependents and siblings, and the recursion ends |
| KconfiglibCache.Configuration.InvalidateSet | support/scripts/kconfiglib.py:2861-2863 | exactly the caches of these symbols and of their choices are dropped, those of special symbols never |
| KconfiglibCache.Configuration.SetUserValue | support/scripts/kconfiglib.py:2447-2479 | all caches stay right if the symbol is MODULES, or does not reach MODULES, or leaves modules as they are; caches outside the dependents are kept |
| KconfiglibCache.Configuration.UnsetUserValue | support/scripts/kconfiglib.py:2481-2486 | the same, with no exception for MODULES |
| KconfiglibCache.Configuration.UnsetUserValues | support/scripts/kconfiglib.py:566-570 | nothing the user has set is left, and all caches are right |
| KconfiglibCache.Configuration.LoadConfig | support/scripts/kconfiglib.py:219-365 | the assignments of the file in order, over nothing or over what was set before, and all caches right |
| KconfiglibCache.Configuration.constructor | support/scripts/kconfiglib.py:213-217 | a new configuration has nothing set, right caches and its dependents linked |
| KconfiglibAssign.GetAssignableValues | support/scripts/kconfiglib.py:2541-2562 | the list is computed through the caches as without them |
| KconfiglibAssign.PartsStay | support/scripts/kconfiglib.py:2447-2479 | setting a symbol, of a choice or not, changes nothing the value of its group is made of |
| KconfiglibAssign.AssignableExactly | support/scripts/kconfiglib.py:2541-2562 | a modifiable symbol evaluates to a value set if and only if that is listed, and is not m for a bool symbol or without modules |
| KconfiglibAssign.AssignableNotTaken | support/scripts/kconfiglib.py:2541-2562 | counterexample: a bool symbol, or a tristate without modules, is offered m and does not take it on |
| KconfiglibAssign.NotModifiable | support/scripts/kconfiglib.py:2698-2717 | a symbol is not modifiable if and only if any two accepted values have the same effect on it |
| KconfiglibAssign.SettingKeeps | support/scripts/kconfiglib.py:2698-2717 | setting a symbol that is not modifiable leaves its value if and only if no default above the selects is in force |
| KconfiglibAssign.ChoiceTakesOn | support/scripts/kconfiglib.py:2311-2322 | a visible choice symbol takes on m exactly with modules and in a choice that is not bool, n exactly if it is not selected, y exactly if fully visible or fallen back on |
| KconfiglibAssign.ChoiceAssignable | support/scripts/kconfiglib.py:2447-2479 | the same of whole configurations, before and after setting |
| KconfiglibAssign.UnmodifiableYetModified | support/scripts/kconfiglib.py:2698-2717 | counterexample: a symbol selected by and shown with a tristate at m, y by default, becomes m when set to m |
| KconfiglibRuns.Run | support/scripts/kconfiglib.py:2287-2486 | any session of getting, setting, unsetting and loading is answered as by evaluation without caches, if nothing but setting and loading changes MODULES |
| KconfiglibStale.ModulesGoStale | support/scripts/kconfiglib.py:2474-2476 | counterexample: disabling modules through a symbol MODULES depends on, or by unsetting MODULES, leaves a tristate's old value in its cache |
| KconfiglibStale.ForgetsExactly | support/scripts/kconfiglib.py:2849-2856 | some invalidation reaches a choice if and only if it has symbols |
| KconfiglibStale.TrackedExactly | support/scripts/kconfiglib.py:1548-1593 | the dependents are complete if and only if whatever decides how visible the default of a choice is reaches the choice's symbols |
| KconfiglibStale.OwnDefaultsTracked | support/scripts/kconfiglib.py:1548-1593 | they are where choices default to symbols of their own |
| KconfiglibStale.ForeignDefaultStale | support/scripts/kconfiglib.py:1548-1593 | counterexample: with right caches, setting a symbol makes the default of a choice outside it invisible, and the choice still remembers that selection after the invalidation |
| KconfiglibStale.EmptyChoiceStale | support/scripts/kconfiglib.py:2849-2856 | counterexample: with right caches, setting a symbol makes a choice without symbols invisible, and whatever is invalidated it remembers being visible |
| KconfiglibStale.ForeignDefaultSelected | support/scripts/kconfiglib.py:3195-3216 | counterexample: a visible choice in mode y none of whose symbols is y |
| Agreement.LogicalAgrees | support/kconfig/symbol.c:339-384 | a bool or tristate symbol has the same value and is written alike in both implementations, all it depends on being the same |
| Agreement.StringAgrees | support/kconfig/symbol.c:385-404 | a string symbol does so if and only if it does not take its default from a bool or tristate symbol that is not n |
| Agreement.NumberAgrees | support/kconfig/symbol.c:385-404 | an int or hex symbol does so if and only if it does not take its default, or that is a number and no bool or tristate other than n, or kconfiglib ends up with the same text after passing over it |
| Agreement.NumberDefaultOf | support/scripts/kconfiglib.py:2412-2439 | kconfiglib takes the first default in force that is a number, or else the last one in force |
| Agreement.EnvironmentAgrees | support/scripts/kconfiglib.py:1294-1315 | a symbol from the environment does so if and only if the user or the first default in force gives it the value from there |
| Agreement.ImplementationsAgree | support/scripts/kconfiglib.py:2287-2445 | both implementations give every bool, tristate, string, int and hex symbol of a configuration, those from the environment included, the same value and write the same symbols if and only if there is none of these differences |
| Disagreement.DisagreeingMeanings | support/scripts/kconfiglib.py:2352-2439 | counterexample: one configuration with a string, a number and a symbol from the environment that the implementations give different values |

## Left out

- E_LIST and E_RANGE: not logical expressions; choices and ranges are not modelled in the C evaluator (they are in kconfiglib), so symbols there have no choice, and range operands, which are evaluated without being edges of the cycle checker, do not occur.
- The setting of modules in the C evaluator: fixed for a whole evaluation, as is the evaluation of that symbol by the evaluator itself.
- DirDepsCovered: the direct dependency of a symbol is evaluated but is no edge of the cycle checker; that its definitions cover it is a hypothesis on configurations, kept entry by entry by `Inheriting.InheritDefinition`.
- Transforming.TransBoolUnderNegation: an expression that is no normal form and so never given to `expr_trans_bool`; it shows that the hypothesis of TransBoolKeepsNo is needed.
- expr_trans_compare against m, and expr_simplify_unmet_dep, which only shapes a warning.
- EliminateDups: works on slots over expression values; nodes freed and reused by the two passes are not modelled there, only in ExprHeap for the other passes.
- ExprHeap.ExprNode: freed nodes are simply no longer part of any tree; use after free and leaks are not modelled.
- MenuFinalize.Finalize: takes the dependencies of entries as already handed down (HandingDown has that, on trees as values); typing and listing the values of choices, and the collection of selects in symbols, are not modelled.
- HandDown: on the tree as parsed, in which only menus, ifs and choices have entries below them; the dependency on y that is put before the values of a tristate choice afterwards (support/kconfig/menu.c:396-407) is not modelled, and of the properties of an entry only the prompt is shown, the others going through the same steps.
- WriteDefconfig: clearing SYMBOL_WRITE of a considered symbol is a set of considered symbols; choice values, headings and menu visibility are not modelled.
- conf_read_simple and kconfig_print_symbol: files are values and assignments; only the text of string values is modelled character by character.
- LoadConfig: starts from the assignments of a file; headers, regular expressions and warnings are not modelled.
- Coherent: special symbols within choices or as their defaults, and defaults of string and number symbols that are no single symbol or string are excluded; kconfiglib would raise an exception on the last.
- Tracked: a kconfiglib configuration whose dependents are incomplete is excluded where caches have to survive a change; `KconfiglibStale.TrackedExactly` says which those are.
- KconfiglibFresh.Fresh: says nothing of the visibility of special symbols and the caches of choices without symbols, which no invalidation reaches.
- Ranked: an acyclic graph is assumed for kconfiglib, which recurses without end otherwise, including what decides how visible the default of a choice is; evaluation of MODULES and of what it depends on must not come across m.
- Agreement: choices and ranges are not compared, and symbols from the environment only if they are strings.
- Configuration.CalcNumber: Python's int(), hex() and str() are parameters; `KconfiglibNumber` assumes of them that what hex() and str() write is read back.
- KconfiglibExpr.Parser: starts from tokens; the sets of referenced symbols it collects and the absence of an expression, which prints as nothing, are not modelled.
- Choice._determine_actual_symbols and the parsing of Kconfig files: their results are inputs.
- Front ends, file handling, help texts, searches, random configurations and memory management.
