# Kconfig engine and mkpimage: a verified model

This project models two parts of the build system and proves what they are for.

The first is the **Kconfig engine** of `support/kconfig`: a small compiler and evaluator for a
three-valued logic on top of a memoised symbol store and a tree of menus.

- *Optimiser* (`expr.c`). `Exprs` has expressions and their value under an assignment, comparisons by
  text and number included (`Comparisons`). `Simplify` and `Operands` (equality by elimination), `Join`,
  `Regions` and `NormalForm` (negation pushing, explicit comparisons) prove that rewriting keeps values and
  what it reaches. `ExprNodes` and `RewriteNodes`
  are the same code on nodes in memory, overwritten and relinked; `Slots` and `Dedup` are the joining of
  operands through two pointers into one tree of nodes, in a fixpoint loop, and `Duplicates` what it makes of
  particular expressions.
- *Evaluator* (`symbol.c`). `Semantics` gives the equation of every symbol and shows that without cycles
  there is one solution, `Values` what decides a value, source by source; `GroupedSemantics` has choices and
  their values too. `Evaluator` is the
  recursive evaluator with its cache, proved to compute the solution, choices included. `SetValue` changes
  symbols, `Choices` has what a choice settles on and runs one choice while everything around it changes,
  `Cycles` searches for recursive dependencies (`Ranks` is about graphs), `SymbolTable` interns names.
- *Menus* (`menu.c`). `MenuTree` and `MenuFinalize` are `menu_finalize` on nodes with `list`, `next` and
  `parent` links; `Submenu` has the conditions and the test for automatic submenus, `Nesting` what belongs
  where in the tree as a whole.
- *Files* (`confdata.c`). `MenuWalk` is the walk without a stack, `Escapes` and `DotConfig` the lines of
  configuration files, `Readings` what a line sets, `LineTexts`, `FileText` and `Headings` what whole files
  with their comments are read as, `ConfRead`, `ConfWrite` and `ConfWriteAll` the reading and writing, and `Defconfig` the proof of what
  a minimal and a whole configuration keep; `Minimal` is about what is left out, `Grouped` and `GroupedConfig` extend it to choices, and
  `RoundTrip` puts evaluator, writer and reader together.

The second is `package/mkpimage/mkpimage.c`: `Crc` (the table-driven CRC is bitwise division) and `Image`
(the header, its branches, sizes and self-consistency; `ImageBytes` byte by byte).

## How to read it

An assignment (`Env`) gives every symbol a tristate and a string. `Typed` says which assignments the
evaluator can produce; `SolutionTyped` proves that it produces no others. `WellFormed` excludes what
expressions must not contain for the optimiser: symbols of type `S_OTHER`, and numerals compared with a
tristate symbol. The second is only excluded where operands are joined (`JoinWithNumeralChangesValue`);
`expr_transform` is proved without it. The first excludes nothing that happens: symbols get the type
`S_OTHER` when auto.conf is read (`confdata.c:366-367`), long after `menu_finalize` has transformed the
expressions, and `TransformNeedsOrderedOperands` shows what would go wrong otherwise.
Symbols are values here, because `sym_lookup` interns them (`SymbolTable.Table.Intern`); choices without
a name are told apart by names of their own, which no file mentions (`SymbolTable.Table.InternChoices`).

Where a law does not hold of the code without a condition, the condition is proved exact, and the input
that breaks it is given where it is not plain: `SavedValueExact`, `SavedefconfigExact`,
`DefconfigFileExact`, `GroupedFileExact` and `SavedPickExact` (what savedefconfig keeps; `ModuleNotSaved`),
`ConfigExact`, `KeptPickExact` and `ConfigFileExact` (what a whole configuration keeps;
`HiddenMemberTakesOver`), `StringLineExact`,
`WrittenLineExact`, `QuietExact`, `MenuHeadingExact`, `CommentExact` (what the reader makes of a text;
`NewlineInjects`, `LaterTextOverrides`), `TextSavedExact`, `ClampIdempotentExact`, `OwnValueKept`,
`SettingOwnValueExact` and `SettingOwnMemberExact` (`ConfirmedDefaultIsLost`), `UserValueExact`, `LatestVisibleExact`
(`EarlierSelectionForgotten`), `SilenceExact` and `AcyclicExact` (`ImplyUnnoticed`, `RangeUnnoticed`),
`TakenHiddenExact` (`PromptlessLeaks`), `JoinEqualUnequalExact`, `TransCompareAtomExact`,
`TransCompareFirm` and `TransCompareNegationExact` (`TransCompareWrong`, `TransCompareModWrong`), `PlanFitsExact`,
`TransBoolNeedsNormalForm`.

Methods of the evaluator take a ghost `Oracle` (a solution and a ranking) and a rank `k`: their contracts
hold for every oracle, they promise values only if the oracle is right, and termination needs neither.

Where code and comments of the program disagree, the code is followed: `expr.c:561` announces
`(a!='m') && (a!='n') -> (a='m')` but yields `a='y'`, which is the equivalent one. The comment
above `sym_check_sym_deps` (`symbol.c:1240`) speaks of returning NULL when dependencies are OK; what
`sym_check_deps` returns at the top level is NULL in any case on graphs without choices, so the error count
in `zconf.y` never sees a cycle (`Cycles.DepSearch.CheckAll`).

## Model

| member | source | states |
|---|---|---|
| CStrings.DecimalRoundTrip | support/kconfig/symbol.c:171-185 | strtoll in base 10 reads back what `%lld` printed, for every 64-bit number |
| CStrings.HexRoundTrip | support/kconfig/symbol.c:171-185 | what strtoll in base 16 reads of what `0x%llx` printed, for every 64-bit number: the number, or the largest one for a negative number, which is printed as two's complement |
| Exprs.EvalDependsOnMentions | support/kconfig/expr.c:1026-1104 | the value of an expression is determined by the symbols that expr_contains_symbol finds in it |
| Exprs.CompareWithTriConst | support/kconfig/expr.c:1064-1103 | a bool or tristate symbol equals the constant y, m or n exactly when that is its value, although the comparison goes through strings and numbers |
| Exprs.CompareWithConst | support/kconfig/expr.c:999-1023 | comparing such a symbol with any constant asks whether the constant is the letter or the numeral of its value |
| Comparisons.MentionsExact | support/kconfig/expr.c:844-869 | expr_contains_symbol finds exactly the symbols that stand alone or are compared |
| Comparisons.LogicalText | support/kconfig/symbol.c:803-825 | the text of a bool or tristate is its letter, but an m that is left without modules is `n` |
| Comparisons.ConnectiveLaws | support/kconfig/expr.c:1041-1051 | `&&` is the greatest lower bound of its operands, `\|\|` the least upper bound, and `!` turns the order around |
| Comparisons.NumbersCompare | support/kconfig/expr.c:1064-1104 | two symbols that hold numbers are compared as numbers by all six relations, an int and a hex too if neither is negative |
| Comparisons.TristatesCompare | support/kconfig/expr.c:1064-1104 | two bool or tristate symbols are compared by n < m < y |
| Comparisons.TextsCompare | support/kconfig/expr.c:1064-1104 | two strings are compared character by character, even if they look like numbers |
| Comparisons.StringAgainstConstant | support/kconfig/expr.c:999-1085 | a string is compared with a constant as a text, unless both are numerals |
| Comparisons.StrCmpExact | support/kconfig/expr.c:1072-1085 | strcmp is negative exactly if the first text is a proper prefix or has the smaller character at the first difference |
| Simplify.EliminateYnPreservesValue | support/kconfig/expr.c:308-389 | folding y and n keeps the value under every assignment |
| Simplify.EliminateYnFolds | support/kconfig/expr.c:297-389 | afterwards no conjunction or disjunction outside a negation has y or n for an operand |
| Simplify.EliminateYnKeeps | support/kconfig/expr.c:297-389 | and an expression without such operands stays as it is |
| Simplify.EliminateEqLeavesFactorsOut | support/kconfig/expr.c:149-189 | for every assignment there is one value c with old e1 = c op new e1 and old e2 = c op new e2 |
| Simplify.EliminateEqLeavesComplete | support/kconfig/expr.c:149-189 | only operands are erased, and no operand common to both sides is left apart from y and n |
| Simplify.EliminateEqFactorsOut | support/kconfig/expr.c:220-240 | a single connective and value give back both originals although two passes with different operators may run |
| Simplify.ExprEqSound | support/kconfig/expr.c:251-295 | expressions that expr_eq calls equal have the same value under every assignment; it and the elimination terminate together |
| Operands.ExprEqReflexive | support/kconfig/expr.c:251-295 | every expression is equal to a copy of itself, though the walk may pair its operands with others |
| Operands.ExprEqExact | support/kconfig/expr.c:251-295 | two conjunctions (or disjunctions) of literals are equal if and only if they have the same operands, in whatever order and grouping, or both contain the deciding constant |
| Operands.WalkCancels | support/kconfig/expr.c:149-189 | the walk pairs each operand of the first side with the first equal one that is left on the second |
| Operands.CoveredEliminated | support/kconfig/expr.c:220-240 | a conjunction whose operands are all among those of another one, pairwise different, is eliminated down to y |
| Operands.OperandEliminated | support/kconfig/expr.c:230-236 | an operand is eliminated against a conjunction or disjunction that has it among its operands, which takes the second walk |
| Operands.LiteralsEliminated | support/kconfig/expr.c:220-240 | with literals for operands that is so if and only if n is not among them and all of them are in the other conjunction |
| Join.JoinSound | support/kconfig/expr.c:423-579 | whatever two operands are joined into has the value of `e1 op e2` under every assignment |
| Join.JoinEqualUnequalExact | support/kconfig/expr.c:531-545 | `(a=b) && (a!=c)` may become `a=b` for a tristate exactly when the constants b and c do not denote the same value |
| Join.JoinWithNumeralChangesValue | support/kconfig/expr.c:531-545 | the input for which the join is wrong: `A=m && A!=1` becomes `A=m` |
| NormalForm.TransformCorrect | support/kconfig/expr.c:686-841 | expr_transform keeps the value under every assignment, also where a tristate is compared with a numeral, and reaches negation normal form |
| NormalForm.TransformNormal | support/kconfig/expr.c:686-841 | negation normal form is reached whatever the operands: NOT only on symbols that are not constants, no bool compared with n, m or y |
| NormalForm.TransformIdempotent | support/kconfig/expr.c:686-841 | transforming twice is transforming once |
| NormalForm.TransformNegates | support/kconfig/expr.c:784-841 | negating a normal form dualises it operand by operand, in place and order |
| NormalForm.DeMorganWeighsLess | support/kconfig/expr.c:784-802 | the measure by which transforming again after De Morgan terminates |
| NormalForm.TransformNeedsOrderedOperands | support/kconfig/expr.c:1076-1081 | with an S_OTHER operand `!(a<b)` and `a>=b` differ: both comparisons are n; such symbols only arise after expressions have been transformed |
| NormalForm.TransBoolKeepsVisibility | support/kconfig/expr.c:394-418 | on normal forms expr_trans_bool never changes whether the value is n, so the visibility after the m-to-y promotion is unchanged |
| NormalForm.TransBoolNeedsNormalForm | support/kconfig/expr.c:394-418 | below a negation it does: `!(A!=n)` with A at m |
| NormalForm.TransCompareSound | support/kconfig/expr.c:914-977 | `(e)!=n` is only y or n, complementary to `(e)=n`; y implies e is not n, n implies e is not y |
| NormalForm.TransCompareExact | support/kconfig/expr.c:945-970 | the converse, when no negated symbol is m |
| NormalForm.TransCompareFirm | support/kconfig/expr.c:914-977 | what the comparison of a normal form with n asks, as an if-and-only-if: that it is not n even if a negated m counts as n |
| NormalForm.TransCompareNegationExact | support/kconfig/expr.c:945-946 | for a negated symbol the comparison is right if and only if the symbol is not m |
| NormalForm.TransCompareWrong | support/kconfig/expr.c:945-970 | an expression that is m and compared as n |
| NormalForm.TransBoolMentions | support/kconfig/expr.c:394-418 | expr_trans_bool drops no symbol but the constant n |
| NormalForm.TransBoolComplete | support/kconfig/expr.c:394-418 | no test of a tristate for being different from n is left, and expressions without one are left alone |
| NormalForm.TransCompareForm | support/kconfig/expr.c:914-977 | comparing a normal form with n and transforming tests the symbols that are not bool and changes nothing else: operators and operands stay in place and order |
| NormalForm.TransCompareYes | support/kconfig/expr.c:914-977 | the comparison with y is right where no negated symbol is m |
| NormalForm.TransCompareMod | support/kconfig/expr.c:914-977 | so is that of a symbol or a comparison with m |
| NormalForm.TransCompareModWrong | support/kconfig/expr.c:945-946 | for a negated symbol the comparison with m, which nothing asks for, says the opposite |
| NormalForm.TransCompareAtomExact | support/kconfig/expr.c:969-970 | which symbols standing alone may be compared with n at all, as an if-and-only-if over all assignments |
| ExprNodes.EliminateYnInPlace | support/kconfig/expr.c:308-389 | the node-overwriting fold leaves at the same root node the folded expression, using only old nodes |
| ExprNodes.TransBoolInPlace | support/kconfig/expr.c:394-418 | the rewriting of tags in place computes TransBool and keeps every node where it is |
| ExprNodes.TransformInPlace | support/kconfig/expr.c:686-841 | the relinking, retagging and allocating expr_transform computes Transform on disjoint old and new nodes |
| ExprNodes.DeMorganInPlace | support/kconfig/expr.c:784-802 | the operator node becomes a negation and the negation the dual operator, with one new node |
| RewriteNodes.RewriteMInPlace | support/kconfig/menu.c:81-104 | rewrite_m in place computes RewriteM |
| ExprNodes.Copy | support/kconfig/expr.c:65-104 | expr_copy: the same expression in new nodes only |
| ExprNodes.Eliminator.EliminateEqLeavesInPlace | support/kconfig/expr.c:149-189 | the walk through two pointers computes EliminateEqLeaves on both sides, which stay apart in memory |
| ExprNodes.Eliminator.EliminateEqInPlace | support/kconfig/expr.c:220-240 | expr_eliminate_eq on nodes computes EliminateEq |
| ExprNodes.Eliminator.ExprEqInPlace | support/kconfig/expr.c:251-295 | expr_eq decides ExprEq on copies and restores trans_count |
| Regions.OperandFactor | support/kconfig/expr.c:588-643 | the value of an AND or OR region is the value of one operand combined with the region in which it is replaced by the unit |
| Regions.JoinOperandSlots | support/kconfig/expr.c:619-640 | writing the joint value into the second slot and the unit into the first keeps the value of the whole region |
| Regions.EliminateYnShrinks | support/kconfig/expr.c:656-678 | folding an expression that contains a unit reduces its leaves: every round of the fixpoint loop but the last makes progress |
| Slots.WriteSide | support/kconfig/expr.c:619-640 | writing through the address of an operand writes at its path, and the nodes stay a tree |
| Slots.PutPlaces | support/kconfig/expr.c:588-643 | all other slots that do not lie behind it stay where they are |
| Dedup.DifferentNodes | support/kconfig/expr.c:609 | two slots hold the same node if and only if they are the same slot |
| Dedup.Dups1 | support/kconfig/expr.c:588-643 | the walk as a function on expressions: the region keeps its value under every assignment, nothing outside changes, and without joins nothing could be joined |
| Dedup.Deduplicated | support/kconfig/expr.c:656-678 | the fixpoint as a function: an equivalent expression in which no two operands of a level can be joined, are the same expression, or are equal to expr_eq |
| Duplicates.CopyRemoved | support/kconfig/expr.c:645-655 | `a \|\| a` and `a && a` become `a`, whatever operand `a` is |
| Duplicates.SymbolCopyRemoved | support/kconfig/expr.c:645-655 | the example of the comment: `A \|\| B \|\| A` loses its first operand, B stays in place |
| Duplicates.OuterCopyRemoved | support/kconfig/expr.c:645-655 | the same for any two operands that cannot be joined |
| Duplicates.ListedPairs | support/kconfig/expr.c:423-579 | every pair that the comments list becomes what they say, in either order of the operands |
| Duplicates.DeduplicatedFixed | support/kconfig/expr.c:656-678 | an expression without operands that can be joined stays as it is |
| Duplicates.ApartOperands | support/kconfig/expr.c:588-643 | the operands of the result, counted from left to right, are pairwise different |
| Dedup.Optimiser.EliminateDups1 | support/kconfig/expr.c:588-643 | on nodes, with two slots into one tree, it computes that function, counts its joins in trans_count, and the slots of the callers stay valid |
| Dedup.JoinNodes | support/kconfig/expr.c:423-579 | expr_join_or and expr_join_and on nodes: equality on copies, then no more than the operands and what is below one negation is looked at; the joined expression is in new nodes |
| Dedup.Optimiser.JoinSlots | support/kconfig/expr.c:619-640 | one join: which two slots are overwritten with what, or nothing at all |
| Dedup.Optimiser.EliminateDups | support/kconfig/expr.c:656-678 | the loop on nodes computes that fixpoint, leaves no two operands of a level that are the same or equal, and restores trans_count |
| Submenu.RewriteMValue | support/kconfig/menu.c:81-104 | with modules enabled rewrite_m changes no value, without them m standing alone reads as n |
| Submenu.RewriteMKeeps | support/kconfig/menu.c:81-104 | an expression in which m does not stand alone stays as it is |
| Submenu.Inherit | support/kconfig/menu.c:348-352 | the prepared dependency is the conjunction of the inherited one and the rewritten own one, in normal form and without duplicate operands |
| Submenu.DependsOnSound | support/kconfig/expr.c:871-898 | expr_depends_symbol and a dependency other than n imply that the symbol is not n |
| Submenu.DependsOnExact | support/kconfig/expr.c:871-898 | it finds the symbol itself and tests that it is y, is m or is not n, exactly among the operands of the conjunction |
| Submenu.CompareForm | support/kconfig/menu.c:448-450 | basedep is the comparison with n of the parent prompt, transformed and deduplicated |
| Submenu.SupersetSound | support/kconfig/menu.c:472-481 | if elimination reduces basedep to y, then dep <= basedep under every assignment |
| Submenu.IsSuperset | support/kconfig/menu.c:472-483 | decides the superset test on the transformed and deduplicated forms |
| Submenu.SupersetBelow | support/kconfig/menu.c:472-483 | what passes the superset test is below the parent prompt under every assignment, both compared with n |
| Submenu.SupersetTaken | support/kconfig/menu.c:463-483 | what it is for: an item whose compared form is a conjunction with all operands of the parent's compared form passes, unless the parent needs n |
| Submenu.SupersetHidesWithParent | support/kconfig/menu.c:463-483 | an item that passes is visible only if the parent prompt is, when no negated symbol is m |
| Submenu.TwoValuedNoNegatedMod | support/kconfig/expr.c:945-946 | without modules that condition holds for every normal form |
| MenuTree.DistinctParts | support/kconfig/menu.c:490-494 | a shape lists no node twice exactly when its parts do not and share none |
| MenuFinalize.InheritInto | support/kconfig/menu.c:343-414 | one child: its dependency and the condition of each property become equivalent to the inherited conjunctions, promoted for symbols that are not tristate, and are left without duplicate operands or tests of tristates for n |
| MenuFinalize.InheritChildren | support/kconfig/menu.c:342-414 | the loop over the children establishes this for all of them |
| MenuFinalize.ChildNeeds | support/kconfig/menu.c:328-340 | an item of a choice needs the value of the choice, one of a menu what its prompt needs, one of an `if` its condition, and each what it needs itself; where it is n so are its properties |
| Nesting.BelongsBelow | support/kconfig/menu.c:455-483 | decides the test: the item mentions the symbol, and depends on it absolutely or elimination leaves nothing but y of the symbol's own prompt condition |
| Nesting.PassesBelongs | support/kconfig/menu.c:455-483 | what passes depends on the symbol absolutely or lies below its prompt condition under every assignment |
| Nesting.AbsolutePasses | support/kconfig/menu.c:458-460 | an absolute dependency always passes |
| Nesting.ConjunctionPasses | support/kconfig/menu.c:463-483 | an item passes that mentions the symbol and needs, beside other things, all that the prompt of the symbol needs |
| Nesting.EnclosingDependency | support/kconfig/menu.c:463-469 | the example of the comment: below a symbol that depends on R an item is listed that depends on `(sym \|\| Q) && R` and does not need the symbol |
| Nesting.PromptlessTakes | support/kconfig/menu.c:448-450 | of a symbol without a prompt every item passes that mentions it, and no other |
| Nesting.BelongsHidesWithParent | support/kconfig/menu.c:455-483 | without modules an item that belongs below a symbol with a prompt shows only if the symbol is set or the prompt shows; below a symbol without a prompt nothing is claimed, its absent condition counts as showing |
| MenuFinalize.TakeSiblings | support/kconfig/menu.c:453-488 | the siblings taken are finalized and get the parent; the loop stops at the first that does not pass the test |
| MenuFinalize.PutBelow | support/kconfig/menu.c:490-494 | the relinking makes the taken chain the children of the parent and the rest its siblings, with correct links |
| MenuFinalize.AbsorbSiblings | support/kconfig/menu.c:425-494 | automatic nesting lists the same nodes in the same order and nests every dependent sibling |
| MenuFinalize.SpliceChildren | support/kconfig/menu.c:567-576 | flattening one node puts its children behind it with the right parent |
| MenuFinalize.FlattenNode | support/kconfig/menu.c:567-576 | the pre-order listing is unchanged and the node keeps children only if it has a prompt text |
| MenuFinalize.FlattenChildren | support/kconfig/menu.c:498-577 | the whole loop, which runs on through the children it has just moved |
| MenuFinalize.FinalizeChildren | support/kconfig/menu.c:423-424 | the loop over children, though each call may absorb the following ones |
| MenuFinalize.Finalize | support/kconfig/menu.c:296-605 | one call: links restored, listing unchanged, everything it consumed finalized once and in order |
| MenuFinalize.FinalizeRoot | support/kconfig/menu.c:296-605 | the whole tree: correct links, the same pre-order listing, each node finalized exactly once, every node inherited from its parsed parent, ifs flattened; every childless symbol takes a run of the siblings after it, each of which passes its test or that of one taken before, and the next sibling does not pass; what is below a node with a title is just this run, or its parsed children |
| Nesting.TakenHidesWithParent | support/kconfig/menu.c:427-494 | without modules a sibling taken below a symbol, directly or by one that was taken, shows only if the prompt of the symbol shows, or it or a sibling taken earlier has its symbol set or has no prompt |
| Nesting.TakenHiddenExact | support/kconfig/menu.c:427-494 | what was taken is hidden together with the symbol if and only if nothing shows that comes behind a taken sibling that is set or without a prompt |
| Nesting.PromptlessLeaks | support/kconfig/menu.c:448-450 | the failing input: below a hidden symbol that is n, a symbol without a prompt takes an item that shows |
| Nesting.NestsExact | support/kconfig/menu.c:453-494 | the nesting property of the whole tree holds if and only if it holds of each of its nodes |
| Nesting.TitledKeepsChildren | support/kconfig/menu.c:558-576 | a node with a prompt and a text keeps all children it was parsed with, and no others |
| MenuFinalize.FlatExact | support/kconfig/menu.c:558-576 | a node without a prompt text is left without children |
| Nesting.NestsMore | support/kconfig/menu.c:425-494 | it is composed of that of consecutive parts of a chain |
| Nesting.SplicedBelow | support/kconfig/menu.c:567-576 | flattening changes nothing below the nodes that keep their children |
| Semantics.CalcAgree | support/kconfig/symbol.c:209-498 | value and SYMBOL_WRITE of a symbol are determined by the values of its dependencies |
| Semantics.SolutionExists | support/kconfig/symbol.c:357-498 | without cycles the equations of all symbols have a solution |
| Semantics.SolutionUnique | support/kconfig/symbol.c:357-498 | and only one |
| Semantics.SolutionTyped | support/kconfig/symbol.c:437-445 | solutions are assignments of the kind under which the optimiser keeps values: no bool is m, no tristate is m without modules |
| Values.SelectRaises | support/kconfig/symbol.c:252-260 | a bool or tristate is at least what selects it, whatever else holds, and is then written unless it is AUTO |
| Values.SelectAlone | support/kconfig/symbol.c:420-445 | without prompt, default and imply that is its value, promoted for a bool, and decides whether it is written |
| Values.ImplyRaises | support/kconfig/symbol.c:262-270 | what implies it raises it where the user does not rule and the direct dependencies are not n |
| Values.ImplyIgnored | support/kconfig/symbol.c:262-270 | with direct dependencies at n an imply counts for nothing |
| Values.DefaultAlone | support/kconfig/symbol.c:424-435 | where the user does not rule, the value of the first default whose condition is not n, limited by that condition |
| Values.NothingGiven | support/kconfig/symbol.c:405-445 | with nothing in force the value is n |
| Values.UserAlone | support/kconfig/symbol.c:412-420 | the value of the user, limited by the largest of the prompt conditions, whatever the defaults |
| Values.NothingMore | support/kconfig/symbol.c:405-445 | no value exceeds what its sources give, except that m may become y |
| Values.TextGiven | support/kconfig/symbol.c:446-462 | the text of a string or number: the user's where a prompt shows, or that of the first symbol that is a default in force, or none |
| Values.RangeHolds | support/kconfig/symbol.c:155-187 | a number within the range in force stays, one outside becomes the text of the bound that it violates |
| Values.WithinRange | support/kconfig/symbol.c:155-187 | the value of an int then lies within the range, if that is not empty |
| Values.WrittenExact | support/kconfig/symbol.c:393-445 | a bool or tristate is written if and only if it is not AUTO and a prompt shows, or something selects it, implies it, or a default in force is not n |
| Values.TextWrittenExact | support/kconfig/symbol.c:446-462 | a string or number if and only if it is not AUTO and a prompt shows or a symbol is its default in force |
| Evaluator.Config.EvalExpr | support/kconfig/expr.c:1026-1104 | cached evaluation of an expression yields its value in the solution; terminates on every input |
| Evaluator.Config.EvalComparison | support/kconfig/expr.c:1064-1085 | the same for the operands of a comparison |
| Evaluator.Config.EvalPrompts | support/kconfig/symbol.c:221-233 | the loop over the prompts computes the largest of their conditions |
| Evaluator.Config.FindDefault | support/kconfig/symbol.c:115-125 | the first default whose condition is not n |
| Evaluator.Config.FindRange | support/kconfig/symbol.c:127-137 | the first range whose condition is not n |
| Evaluator.Config.CalcVisibility | support/kconfig/symbol.c:209-270 | visible, dir_dep, rev_dep and implied become what the solution says, nothing of equal or higher rank changes |
| Evaluator.Config.CalcLogical | support/kconfig/symbol.c:406-445 | the value of a bool or tristate symbol and its SYMBOL_WRITE |
| Evaluator.Config.CalcText | support/kconfig/symbol.c:446-462 | the value of a string, int or hex symbol before its range is checked |
| Evaluator.Config.InRange | support/kconfig/symbol.c:155-187 | sym_validate_range, with the bounds evaluated only as far as the code does |
| Evaluator.Config.CalcMemberVisible | support/kconfig/symbol.c:209-241 | the visibility of a choice value is right and its choice has been evaluated, which its prompts depend on |
| Evaluator.Config.CalcMember | support/kconfig/symbol.c:405-445 | a choice value in the cache: y exactly if it shows and its choice has settled on it, its own default if it is hidden |
| Evaluator.Config.SettleChoice | support/kconfig/symbol.c:304-334 | sym_calc_choice in the cache: the visibility of all members is calculated below the choice, and the result is what the choice settles on |
| Evaluator.Config.ChoiceDefault | support/kconfig/symbol.c:278-302 | sym_choice_default in the cache, for a choice under evaluation or a valid one: the first default that holds with a visible target, otherwise the first visible member |
| Evaluator.Config.CalcChoice | support/kconfig/symbol.c:376-498 | a choice in the cache: value, curr.val, visibility and SYMBOL_WRITE are what the solution says although members are visited while it is evaluated |
| Evaluator.Config.CalcFresh | support/kconfig/symbol.c:376-498 | from marking a plain symbol, choice or choice value valid to its value: everything valid below any rank stays right |
| Evaluator.Config.CalcValue | support/kconfig/symbol.c:357-498 | the memoised evaluator, choices and their values included: terminates on every input by the number of symbols not yet valid; without cycles the cache holds the solution |
| Evaluator.Config.CalcInAnyOrder | support/kconfig/symbol.c:357-509 | after any sequence of calls from a cleared cache every valid symbol, choice and choice value holds its value in the solution |
| SetValue.NeverBelowSelects | support/kconfig/symbol.c:436-445 | no value is below rev_dep, and none is m where the type is bool |
| SetValue.UserValueExact | support/kconfig/symbol.c:511-530 | for a changeable symbol a user value is the resulting value if and only if it is within range, or is y where a prompt limited to m meets an implied y |
| SetValue.SetThenRecalculate | support/kconfig/symbol.c:511-566 | a value that can be set is the value after setting it and evaluating again; where a choice value is set to y, the others that show are n then |
| SetValue.BelowUnchanged | support/kconfig/symbol.c:532-566 | setting a symbol does not change symbols that rank no higher, setting a choice value none that rank no higher than the choice |
| SetValue.SettingOwnValueExact | support/kconfig/symbol.c:536-563 | a plain symbol may be set to its present value unchecked and without clearing the cache: the cached values stay a solution in exactly these cases |
| SetValue.ConfirmedDefaultIsLost | support/kconfig/symbol.c:536-563 | the case that fails: prompt at m, default y, y confirmed, and the value becomes m |
| SetValue.SettingOwnMemberExact | support/kconfig/symbol.c:536-563 | the same for a choice value that is y: confirming one that is hidden takes the selection away, unless the choice is n or settles on its default anyway |
| SetValue.SetTristate | support/kconfig/symbol.c:511-566 | accepted exactly if the value is the present one or within range, for a choice value that shows only y; what happens to user values, selections and cache |
| SetValue.SetAndRecalculate | support/kconfig/symbol.c:532-566 | setting a new value and recalculating: in the cache the symbol or choice value has that value if it could be set and its old one if not |
| Cycles.DepSearch.PrintRecursive | support/kconfig/symbol.c:1128-1204 | the symbol met again is on the stack, and what is reported from there is a cycle |
| Cycles.DepSearch.CheckExprDeps | support/kconfig/symbol.c:1206-1238 | all symbols of an expression have been searched unless a cycle was found; the stack is balanced |
| Cycles.DepSearch.CheckSymDeps | support/kconfig/symbol.c:1241-1273 | the same for all followed edges of a symbol |
| Cycles.DepSearch.CheckDeps | support/kconfig/symbol.c:1312-1344 | keeps: the stack is a path of the symbols marked SYMBOL_CHECK, and without reports whatever was left leads only to symbols left before |
| Cycles.DepSearch.CheckAll | support/kconfig/zconf.y:554-557 | from all symbols: a report exists if and only if the followed edges have a cycle, each report is one; the result that zconf.y counts as an error is always NULL |
| Cycles.Verdict | support/kconfig/symbol.c:1312-1344 | reports are cycles, exist exactly if there is a cycle, and are absent exactly if the edges can be ranked |
| Ranks.RankingExact | support/kconfig/symbol.c:1241-1344 | a finite graph can be ranked exactly if it has no cycle |
| Cycles.AcyclicExact | support/kconfig/symbol.c:209-498 | the equations of the evaluator can be ranked exactly if no symbol depends on itself by what its evaluation looks at; ranges count for numbers only |
| Cycles.NodesCarry | support/kconfig/menu.c:368-398 | the P_SYMBOL properties of the menu nodes of a symbol mention every symbol of its direct dependency but the constant n |
| Cycles.UnfollowedExact | support/kconfig/symbol.c:1241-1273 | what is evaluated and not followed is a range bound of a number or an imply, and nothing else |
| Cycles.FollowedExact | support/kconfig/symbol.c:1241-1273 | the converse: what is followed is evaluated, except the condition of an imply and of a range of what is no number |
| Cycles.PropertyFollowed | support/kconfig/symbol.c:1252-1266 | the conditions of all properties but selects and lists of choice values are followed, and the values of defaults |
| Cycles.ImplyEntered | support/kconfig/symbol.c:1254-1258 | the conditions of implies are: A that implies B if C, where C depends on A, is reported |
| Cycles.ReportedLoop | support/kconfig/symbol.c:1241-1273 | every reported cycle is one of what the evaluator looks at, unless it runs through such an edge |
| Cycles.SelectNotEntered | support/kconfig/symbol.c:1254-1256 | the conditions of selects are not entered: A that selects B if C, where C depends on A, is no cycle |
| Cycles.SilentCycle | support/kconfig/symbol.c:1241-1273 | after a silent search every cycle of the equations runs through such an edge |
| Cycles.SilenceExact | support/kconfig/symbol.c:1241-1273 | after a silent search the equations are acyclic if and only if no cycle runs through such an edge |
| Cycles.ImplyUnnoticed | support/kconfig/symbol.c:1248-1267 | the first failing input: two symbols that imply each other |
| Cycles.RangeUnnoticed | support/kconfig/symbol.c:139-153 | the second: two numbers that are bounds of each other |
| Cycles.DirectNoticed | support/kconfig/symbol.c:1253-1259 | every cycle of direct dependencies is a cycle that the search follows, by the P_SYMBOL properties |
| Choices.SelectedExact | support/kconfig/symbol.c:278-334 | the selection is a visible member, and there is one whenever a member is visible |
| Choices.SelectedInOrder | support/kconfig/symbol.c:278-334 | a selection of the user that shows wins, then the first default that holds with a visible target, then the first visible member |
| Choices.Choice.CalcVisibility | support/kconfig/symbol.c:209-241 | a member is visible when the choice and its own dependencies are |
| Choices.Choice.CalcChoiceValue | support/kconfig/symbol.c:405-470 | the choice is y when it settles on a member, and curr.val is that member |
| Choices.Choice.CalcChoice | support/kconfig/symbol.c:304-334 | the user selection if visible, otherwise the default |
| Choices.Choice.ChoiceDefault | support/kconfig/symbol.c:278-302 | the first default that holds with a visible target, otherwise the first visible member |
| Choices.Choice.CalcMember | support/kconfig/symbol.c:405-411 | a member is y exactly if it is curr.val of the choice, in whatever order members are evaluated |
| Choices.Choice.SetMember | support/kconfig/symbol.c:532-566 | which settings succeed, and that y makes the member the user selection |
| Choices.Choice.Run | support/kconfig/symbol.c:278-566 | after any run of settings and outside changes: exactly one y member when the choice is y, it is visible and curr.val, and it is the last success if that is still visible and the default otherwise; the last success that is still visible is selected exactly if it is the last at all or the default |
| Choices.LatestVisibleExact | support/kconfig/symbol.c:304-334 | the last of any successes that is still visible is selected if and only if it is the last one or the default |
| Choices.Choice.SaveMembers | support/kconfig/confdata.c:700-719 | the lines written for the members: the selection unless it is the default of the choice |
| Choices.Choice.LoadMembers | support/kconfig/confdata.c:380-400 | the last member read as y is the user selection |
| Choices.Choice.SaveAndLoad | support/kconfig/confdata.c:700-719 | saving, loading and evaluating one choice selects the same member where its conditions stay what they were; that they do is `Grouped.GroupedFileExact` |
| Choices.SelectedSame | support/kconfig/symbol.c:278-334 | what a group settles on depends on the conditions of the choice, its defaults and its members alone |
| GroupedSemantics.GroupedExists | support/kconfig/symbol.c:209-498 | the equations of symbols, choices and members have a solution when members' own dependencies rank below the choice and the choice below its members |
| GroupedSemantics.GroupedUnique | support/kconfig/symbol.c:209-498 | and only one |
| GroupedSemantics.ExactlyOne | support/kconfig/symbol.c:304-334 | in every solution a choice is y exactly if a member shows, and then exactly one of those that show is y |
| GroupedSemantics.ShownByPrompts | support/kconfig/symbol.c:209-241 | a member shows exactly if one of its prompts and one of the prompts of its choice is not n |
| GroupedSemantics.PickFirst | support/kconfig/symbol.c:321-326 | in whole configurations a choice settles on the user's selection if it shows |
| GroupedSemantics.DefaultNext | support/kconfig/symbol.c:284-292 | then on the member that the first default names which holds and whose member shows |
| GroupedSemantics.MemberLast | support/kconfig/symbol.c:294-298 | then on the first member that shows |
| GroupedSemantics.HiddenMember | support/kconfig/symbol.c:420-445 | a hidden member has the default of its own that is in force, as y unless it is n |
| GroupedSemantics.Ungrouped | support/kconfig/symbol.c:357-498 | without choices the equations and rankings are those of `Semantics` |
| GroupedSemantics.RestoredExact | support/kconfig/symbol.c:357-498 | evaluating other user values and selections gives the old values if and only if these solve the new equations |
| GroupedSemantics.SolvesByParts | support/kconfig/symbol.c:357-498 | which they do if and only if every plain symbol keeps its value and every choice settles on the same member |
| Grouped.SavedPickExact | support/kconfig/confdata.c:700-719 | the member a choice settles on survives if and only if it is the default of the choice, or is listed, not AUTO and has no default of its own that holds |
| Grouped.OnlyPick | support/kconfig/confdata.c:380-400 | the selection that reading leaves a choice with |
| Grouped.GroupedExact | support/kconfig/confdata.c:679-735 | from the saved user values and selections alone every symbol, choice and member gets the value it had, if and only if every plain symbol and every choice is saved faithfully |
| Grouped.GroupedFileExact | support/kconfig/confdata.c:667-738 | the same from file to file: the text written with the default members skipped, read with the last y member of each choice selected |
| Grouped.UngroupedEntries | support/kconfig/confdata.c:679-735 | without choices the lines are those of `Defconfig.SavedEntries` |
| GroupedConfig.ReadPickExact | support/kconfig/confdata.c:380-400 | the selection read of a choice is the member written as y that is listed behind all others written as y |
| GroupedConfig.ClaimsExact | support/kconfig/symbol.c:405-445 | written as y are the member the choice settled on and hidden members with a default y of their own, unless AUTO |
| GroupedConfig.KeptPickExact | support/kconfig/confdata.c:792-825 | in the whole configuration the member a choice settles on survives if and only if it is the default of the choice, or is listed, not AUTO and listed behind every hidden member that is y |
| GroupedConfig.KeptExact | support/kconfig/confdata.c:792-825 | no value is lost if and only if every plain symbol and every choice is kept |
| GroupedConfig.HiddenMemberTakesOver | support/kconfig/confdata.c:380-400 | the failing input: a hidden member with a default y listed behind the member selected; the choice falls back to its default |
| GroupedConfig.TakeoverRanked | support/kconfig/symbol.c:209-498 | that configuration has no cycle |
| Choices.EarlierSelectionForgotten | support/kconfig/symbol.c:321-326 | the run for which it is not: two members set, then the second hidden |
| Escapes.UnescapeEscape | support/kconfig/symbol.c:962-1003 | unescaping takes back escaping for every string |
| Readings.UnescapeQuoted | support/kconfig/confdata.c:160-175 | a backslash is dropped before any character, not only before those that escaping puts one before |
| Readings.EscapeAdds | support/kconfig/symbol.c:962-1003 | escaping adds two quotes, and a backslash for every quote and backslash, nothing else |
| Escapes.CountEscaped | support/kconfig/symbol.c:962-984 | the first pass counts exactly the size of the escaped string with its terminator |
| Escapes.EscapeValue | support/kconfig/symbol.c:962-1003 | the second pass fills that buffer exactly; every strcat fits |
| Escapes.RemoveBackslash | support/kconfig/confdata.c:163-169 | memmove over a backslash keeps the rest of the terminated string |
| Escapes.UnescapeInPlace | support/kconfig/confdata.c:161-175 | the in-place loop succeeds exactly when a closing quote is there and leaves the unescaped string in the buffer |
| DotConfig.ParsePrinted | support/kconfig/confdata.c:125-193 | conf_set_sym_val gives back every valid value |
| DotConfig.LineRoundTrip | support/kconfig/confdata.c:486-507 | the line printed for a symbol is read as an assignment of the value printed |
| DotConfig.TextRoundTrip | support/kconfig/confdata.c:312-372 | reading any list of printed symbols recovers all their values, later lines winning |
| Readings.LogicalLine | support/kconfig/confdata.c:125-157 | a line `NAME=text` sets a bool or tristate by the first letter of the text: y, n, and m for tristates alone; any other text sets nothing |
| Readings.CarriageReturn | support/kconfig/confdata.c:353-357 | a carriage return before the line end is no part of the value |
| Readings.UnsetLine | support/kconfig/confdata.c:312-345 | `# NAME is not set` sets a bool or tristate to n and is a comment for other symbols |
| Readings.NumberLine | support/kconfig/confdata.c:176-187 | a number is set by exactly the numerals of its type |
| Readings.DecimalExact | support/kconfig/symbol.c:597-609 | those of an int are what printf makes of integers, and `-0` |
| Readings.HexadecimalExact | support/kconfig/symbol.c:610-619 | those of a hex are what strtoll in base 16 reads to the end, starting with a digit |
| Readings.UnsetWritten | support/kconfig/confdata.c:487-507 | a bool or tristate that is n is written as a comment, every other value as `NAME=text`, strings in quotes |
| FileText.ReadIsApply | support/kconfig/confdata.c:312-405 | reading a text makes the assignments of its lines, in order |
| FileText.EffectsConcat | support/kconfig/confdata.c:312-405 | texts of whole lines are read one after the other |
| FileText.SilentExact | support/kconfig/confdata.c:312-405 | a text leaves all user values alone if and only if none of its lines assigns |
| FileText.StringLineExact | support/kconfig/confdata.c:125-193 | a string value is read back, as it was, if and only if it has no line break |
| LineTexts.LineExact | support/kconfig/confdata.c:312-379 | the lines that assign something: those that start like an unset line, and `NAME=` with a value the symbol accepts |
| FileText.QuietExact | support/kconfig/confdata.c:312-405 | a text makes no assignment if and only if none of its lines looks like one |
| FileText.WrittenLineExact | support/kconfig/confdata.c:312-372 | the line of a string does nothing but assign the value, if valid, if and only if it has no line break or no line behind it looks like an assignment |
| FileText.NewlineInjects | support/kconfig/confdata.c:312-372 | the failing input: a string value that makes the reader set a bool to y |
| Headings.PrintComment | support/kconfig/confdata.c:509-528 | kconfig_print_comment writes one comment line for each line of a text |
| LineTexts.UnsetNameExact | support/kconfig/confdata.c:315-322 | the lines that the reader takes for `# NAME is not set` |
| Headings.MenuHeadingExact | support/kconfig/confdata.c:796-800 | the title of a menu is read as nothing if and only if it does not start like a line that unsets a bool or tristate |
| Headings.CommentExact | support/kconfig/confdata.c:509-528 | the same for the comment at the top of a file, line by line |
| Headings.MenuHeadingLines | support/kconfig/confdata.c:794-801 | the heading of a menu is its title between two number signs, behind an empty line |
| Headings.FileHeadingLines | support/kconfig/confdata.c:650-663 | the comment at the top says that the file is generated, and gives the title |
| Headings.CommentLines | support/kconfig/confdata.c:510-527 | a comment has `#` for an empty line and `# line` for any other |
| Headings.HeadingCut | support/kconfig/confdata.c:650-663 | a long title is cut off at the end of the buffer |
| ConfRead.WriteSymbol | support/kconfig/confdata.c:628-647 | conf_write_symbol with the escaping buffer prints the line of the symbol |
| ConfRead.SetSymVal | support/kconfig/confdata.c:125-193 | conf_set_sym_val with the unescaping buffer assigns the parsed value |
| ConfRead.ReadOneLine | support/kconfig/confdata.c:312-400 | one round of the reading loop: the user value assigned, and a member read as y as the selection of its choice |
| ConfRead.ReadSimple | support/kconfig/confdata.c:250-405 | the loop over the lines of a file computes the user values and the selections of its text |
| Defconfig.ClampIdempotentExact | support/kconfig/symbol.c:155-187 | bringing numbers into a range is done once and for all exactly for the stable ranges: in base 10 those that are not empty; in base 16 those that are not empty and have no negative bound, and those from the smallest number, and from a negative lower bound to the largest number or to itself |
| Defconfig.OwnValueKept | support/kconfig/symbol.c:436-445 | a symbol given its own value as user value keeps it in exactly these cases |
| Defconfig.TriSavedExact | support/kconfig/confdata.c:689-719 | a bool or tristate keeps its value if and only if it has the value it would have without the user, or is written and changeable |
| Defconfig.TwoValuedSaved | support/kconfig/confdata.c:689-719 | with modules off one of the two always holds but for AUTO symbols |
| Defconfig.ModuleNotSaved | support/kconfig/confdata.c:693-695 | the failing input with modules on: prompt and select at m, default y, and the m is lost |
| Defconfig.TextSaved | support/kconfig/confdata.c:689-719 | the same condition is exact for numbers and strings with a stable range (base 16: no negative bound, as in `ClampIdempotentExact`), also where a value is cut to its range |
| Defconfig.TextSavedExact | support/kconfig/confdata.c:693-698 | a string the user gives survives the file if and only if its prompt is hidden, it is the default, or it has no line break and the symbol is visible beyond what selects it and not AUTO; through the printed line and the reader |
| Defconfig.SavedValueExact | support/kconfig/confdata.c:689-719 | all types together: a symbol gets its value back if and only if it is hidden, or has the value it would have without the user, or is listed, not AUTO and changeable |
| Defconfig.SavedefconfigLossless | support/kconfig/confdata.c:679-735 | savedefconfig loses nothing: evaluating from the saved user values alone gives every symbol its value, modules off or on, if each visible symbol is as in `SavedValueExact` and the range in force is stable |
| Defconfig.SavedefconfigExact | support/kconfig/confdata.c:679-735 | with stable ranges no value is lost if and only if every symbol is as in `SavedValueExact` |
| Defconfig.WrittenValueExact | support/kconfig/confdata.c:802-808 | which symbols get their value back from the whole configuration, as an if-and-only-if |
| Defconfig.ConfigLossless | support/kconfig/confdata.c:792-825 | evaluating from all written values that can be read keeps every value, with modules on too, if no default exceeds what a visible prompt allows; that these are what the file holds is `ConfWriteAll.ReadConfigFile` |
| Defconfig.ConfigExact | support/kconfig/confdata.c:792-825 | no value is lost if and only if no symbol is an exception to that |
| ConfWrite.StringDefaultOf | support/kconfig/symbol.c:732-801 | sym_get_string_default of a symbol or choice value yields the value without user value and leaves the cache right |
| ConfWrite.TakeWrite | support/kconfig/confdata.c:689-692 | SYMBOL_WRITE is found set once at most, and exactly for symbols to be written |
| ConfWrite.IsChoiceDefault | support/kconfig/confdata.c:707-714 | the choice of a visible member is asked for its default through the cache, which stays right |
| ConfWrite.SaveSymbol | support/kconfig/confdata.c:688-720 | the line written at a menu, or nothing; choice values that are the default of their choice are skipped |
| ConfWrite.WriteDefconfig | support/kconfig/confdata.c:667-738 | the file holds the lines of exactly the saved symbols and choice values, in menu order and each once, evaluated through the cache on the way |
| Defconfig.SavedEntriesExact | support/kconfig/confdata.c:679-735 | an entry exists for exactly the saved symbols |
| Minimal.LogicalSaved | support/kconfig/confdata.c:692-720 | a bool or tristate is written if and only if the user can change it and it would have another value without him |
| Minimal.TextSavedMinimal | support/kconfig/confdata.c:692-720 | a string or number if and only if it shows and its text is not that of its default, out of range or not |
| Minimal.MemberSavedMinimal | support/kconfig/confdata.c:692-720 | a member of a choice if and only if the choice settled on it other than by default, or it is n where a default of its own is y |
| Defconfig.DefconfigFileExact | support/kconfig/confdata.c:667-738 | without choices, from file to file: reading the text written and evaluating gives every symbol its value, if and only if each is saved faithfully |
| ConfWriteAll.WriteConfig | support/kconfig/confdata.c:785-825 | with or without pending changes the text is the comment at the top, a heading for every menu without symbol that is visible by its prompt and its `visible if`, and a line for every written symbol or choice value, also below hidden menus |
| ConfWriteAll.ItemsExact | support/kconfig/confdata.c:789-825 | there is a heading for exactly the menus without symbol whose prompt and `visible if` hold, and a line for exactly the written symbols, with their values |
| ConfWriteAll.ItemsInOrder | support/kconfig/confdata.c:789-825 | what is put out for the menus visited first stands first |
| ConfWriteAll.ReadConfigFile | support/kconfig/confdata.c:312-405 | reading that text gives exactly the values written that are valid, and of every choice the last y, if no written string has a line break with a line behind it that looks like an assignment, no number a line break or a carriage return at its end, and no title reads like a line that unsets a symbol |
| ConfWriteAll.ConfigFileExact | support/kconfig/confdata.c:740-848 | from file to file: evaluating after reading gives every symbol, choice and member its value, if and only if each is one whose value is kept |
| RoundTrip.SaveAndLoad | support/kconfig/confdata.c:667-738 | on one configuration in memory: writing the minimal file through the cache, reading it back and evaluating in any order leaves every symbol, choice and member with the value it had, if and only if all are saved faithfully |
| RoundTrip.SaveAllAndLoad | support/kconfig/confdata.c:740-848 | the same with the whole configuration, if and only if all are kept |
| ConfWriteAll.LaterTextOverrides | support/kconfig/confdata.c:802-808 | the failing input: a text with a line break behind a bool that is n sets it to y |
| ConfWriteAll.WrittenOnce | support/kconfig/confdata.c:802-808 | clearing SYMBOL_WRITE makes each symbol appear at most once |
| MenuWalk.NextMenu | support/kconfig/confdata.c:811-824 | one step along list, next and parent links goes to the next node in pre-order |
| MenuWalk.Walk | support/kconfig/confdata.c:788-825 | the stackless walk ends and visits every node below the root exactly once in pre-order |
| SymbolTable.Table.Lookup | support/kconfig/symbol.c:841-880 | the symbol of that name and flags if there is one, otherwise a new one; nothing else changes |
| SymbolTable.Table.Find | support/kconfig/symbol.c:882-907 | found exactly if a symbol of that name exists that is not a constant |
| SymbolTable.Table.Intern | support/kconfig/symbol.c:841-907 | two lookups of a name give one symbol, and sym_find finds it unless a choice has the same name |
| SymbolTable.Table.FindSymbol | support/kconfig/symbol.c:882-907 | sym_find on the table finds what the map used for reading files finds |
| SymbolTable.Table.InternChoices | support/kconfig/symbol.c:841-880 | choices without a name are symbols of their own and are not found by any name |
| Crc.LookupCorrect | package/mkpimage/mkpimage.c:104-148 | every entry of the table is eight shift steps of its index |
| Crc.UpdateIsShift8 | package/mkpimage/mkpimage.c:154-155 | a table step is eight steps of the division after adding the byte to the top of the remainder |
| Crc.FeedByteIsUpdate | package/mkpimage/mkpimage.c:154-155 | and the same as feeding the bits of the byte one at a time, most significant first |
| Crc.Crc32 | package/mkpimage/mkpimage.c:150-158 | for every buffer and start value crc32 is the remainder of bitwise division by 0x04c11db7 |
| Crc.CheckValue | package/mkpimage/mkpimage.c:104-158 | the check value of this CRC: the remainder of the digits 1 to 9 |
| Image.BranchReaches | package/mkpimage/mkpimage.c:163-171 | a branch decodes to the destination it was made for, forwards and backwards |
| Image.Checksum | package/mkpimage/mkpimage.c:237-240 | the loop sums the bytes of the header before the checksum |
| Image.AddCrc | package/mkpimage/mkpimage.c:250-253 | the last word is the inverted CRC of everything before it |
| Image.Trampoline | package/mkpimage/mkpimage.c:195-204 | the entry is the start address or a branch behind the header that goes there |
| Image.AddHeaderV0 | package/mkpimage/mkpimage.c:175-255 | version 0: length, checksum, start vector and CRC decode to what they should, all other bytes are untouched |
| Image.AddHeaderV1 | package/mkpimage/mkpimage.c:175-255 | version 1: the same with an entry offset that is not negative; the image is consistent if and only if the trampoline fits or the CRC happens to be a branch to the start |
| Image.AddHeader | package/mkpimage/mkpimage.c:175-255 | refuses sizes that are not a multiple of 4 and touches nothing then |
| Image.PlanWithinLimits | package/mkpimage/mkpimage.c:299-334 | the padded total is a multiple of 4 and at most 60 KiB or 224 KiB |
| Image.PlanFitsExact | package/mkpimage/mkpimage.c:299-334 | header, trampoline and CRC fit exactly if the version is 0, the barebox header is used or the input has more than 84 bytes, and lie inside the image from 81 bytes on; main asks for 80 |
| ImageBytes.PlanTaken | package/mkpimage/mkpimage.c:299-334 | which sizes main takes, as an if-and-only-if |
| ImageBytes.PlanTight | package/mkpimage/mkpimage.c:336-340 | the image is the shortest whole number of words that holds front, input and CRC |
| ImageBytes.BodyHolds | package/mkpimage/mkpimage.c:340-356 | the input stands unchanged behind the front, the barebox header fills the front, everything else is zero |
| ImageBytes.BareboxBytes | package/mkpimage/mkpimage.c:45-66 | the barebox header: two branches to place 512, seven to themselves, `barebox` in letters and zeros |
| ImageBytes.PlacesV0 | package/mkpimage/mkpimage.c:175-255 | byte by byte what a version 0 image holds: AS01, version, length in words, checksum, branch and CRC |
| ImageBytes.PlacesV1 | package/mkpimage/mkpimage.c:175-255 | the same for version 1, with both lengths and the entry offset |
| ImageBytes.StoredCheckValue | package/mkpimage/mkpimage.c:250-253 | the CRC is stored inverted: the check value as it would stand in an image |
| Image.BareboxStarts | package/mkpimage/mkpimage.c:45-66 | the first instruction of the barebox header goes to the image behind it |
| Image.MakeImage | package/mkpimage/mkpimage.c:299-370 | what is written: the header around the unchanged input, or none for sizes out of bounds; consistent if and only if the trampoline fits, which version 1 without barebox header needs more than 84 bytes for, or the CRC happens to be the branch |

## Left out

- Front ends, help texts, regular expressions, gettext, warnings and messages: user interface.
- Opening, renaming and reading files, the environment, `conf_split_config` and the generated headers: files are texts here; the growing line buffer of `compat_getline` is a text too.
- `modules_val` changing during evaluation: the value of MODULES is a parameter, and `sym_clear_all_valid` does not evaluate `modules_sym`.
- Tristate and optional choices, `SYMBOL_NEED_SET_CHOICE_VALUES`, random and bulk configuration, and the marks for new symbols that members of a choice share.
- Change tracking (`SYMBOL_CHANGED`, `MENU_CHANGED`) and the warning about unmet dependencies: no value depends on them.
- `E_LIST` and `E_RANGE` inside expressions, symbols of type `S_OTHER` read from auto.conf, and reading into `S_DEF_AUTO`.
- `expr_print` and the other printers of expressions.
- The part of `menu_finalize` that collects `select`, `imply` and direct dependencies into other symbols, checks properties, and finds type and members of a choice (`menu.c:311-326`, `menu.c:404-412`, `menu.c:496`, `menu.c:499-537`, `menu.c:579-604`): the collected expressions are the `revDep`, `implied` and `dirDep` of a symbol definition.
- `menu_is_visible` for menus with a symbol, which only the front ends ask for; how the parser puts `visible if` into the prompts below.
- What `conf_read` does after reading (dropping user values of hidden symbols and of numbers out of range), and its warnings.
- Failure of malloc; free is not modelled, nodes that are freed are no longer part of any expression.
- MenuFinalize.Finalize: the conditions of menus and properties are values, so sharing of expression nodes between them is not captured; the tree of menus is on the heap.
- ConfWrite.WriteDefconfig: does not call `menu_is_visible` at menus without symbol, whose result that function does not use; the entries are for trees whose symbols have a type.
- Evaluator.Config.CalcChoice: for bool choices that are not optional and members of type bool; the prompt of a choice is one whose condition is its reverse dependency, as menu_finalize makes it (`menu.c:600-604`), and its defaults name members. What it passes on of its SYMBOL_WRITE to members that show (`symbol.c:484-486`) they set themselves.
- Choices.Choice.CalcChoiceValue: the tristate the user gave the choice itself is not modelled, because the reverse dependency of a choice that is not optional decides its value.
- Cycles.DepSearch.CheckAll: for graphs without choices and choice values.
- Image.MakeImage: an input of exactly 80 bytes in version 1 without the barebox header is left out, because the trampoline then does not lie inside the image (`Image.PlanFitsExact`); words are stored low byte first, as on the hosts the tool is built for.
- Toolchain wrapper, device table, password and checking scripts: not part of this model.
