# Kconfig engine, hashes and checksum

A model of the configuration engine in `scripts/config`, of the two hash
functions in `scripts/mkhash.c` and of the checksum in
`scripts/cfe-partition-tag.py`, with proofs of what they guarantee.

`dafny verify dfyconfig.toml` checks everything.

## How it is organised

* Expressions: `Tristate`, `Expr` (values, comparison of texts and numbers,
  evaluation), `ExprConstants`, `ExprEquality`, `ExprJoin`, `ExprSlots`,
  `ExprDups`, `ExprTransform`, `ExprCompare`, `ExprOrder`, `ExprText`. The passes of `expr.c`
  are functions on trees, about which the properties are proved; `ExprNodes`
  has the same passes as code that rewrites nodes on the heap, each tied to its
  function. `ExprDups` keeps what matters there: both handles of the walk point
  into the same tree, so a write through one is seen through the other.
* Symbols: `Symbols` (declarations and the evaluator without cache),
  `SymbolFacts`, `SymbolTable` (the evaluator with SYMBOL_VALID, the placeholder
  written before recursion, and changes by the user), `MenuConditions` (what the
  propagation in menu_finalize does to conditions and values), `Choices`,
  `DependencyGraph`, `DependencyOrder` and `DependencyCheck` (the check for
  recursive dependencies).
* Menus: `MenuShape` (trees as values) and `MenuTree` (the next, list and parent
  pointers of every entry, kept in sequences indexed by entry).
* `Macro`, `MacroFacts`, `Preprocess` and `MacroCalls`: the macro language, its
  laws, the cursor code, and what references expand to.
* `Words`, `Fips180` and `Sha256`; `Rfc1321` and `Md5`: the standards as
  functions, and the streaming code. Words are integers below 2^32 with addition
  modulo 2^32; only the logical functions go through bit vectors.
* `Escape` and `Crc32`.

## Assumptions

* Typing (`Exprs.WellTyped`): constants show their own text; a bool symbol is
  never m; the text of a bool or tristate symbol is its value; any other symbol
  has the tristate value n. `Symbols.ShownIsWellTyped` proves that evaluation
  provides this.
* Constants such as "1" that read as a number but are tested against a tristate by
  = or != are excluded where stated (`ExprDups.PlainConsts`). `EliminateDups`
  itself needs no such assumption: its value can only change by a join of two
  constants that clash (`ExprJoin.Clash`).
* The symbols that MODULES depends on are not tristates
  (`SymbolTables.SymbolTable.Static`).
* Whether an entry belongs below another is a fixed relation in `MenuShape`; its
  meaning is the subject of `ExprCompare.BelongsBelow`.

## What the code does that a reader might not expect

* expr_eq matches operands one to one; its comment describes a comparison as
  sets (`RepeatedOperandsDiffer`).
* The rule for a='b' && a!='c' compares constants as symbols. It is wrong exactly
  if both denote the same tristate value, as "1" and m do (`JoinAndExact`,
  `NumericConstantsClash`). The comment at expr.c:569 names (a='m') for
  (a!='m') && (a!='n'); the code rightly gives (a='y').
* expr_trans_bool is described for bool symbols and tests for tristates. It
  weakens the condition of a select in a symbol that is not a tristate, and can
  so lower the selected tristate from y to m (`SelectedValueFalls`; exactly when,
  in `FinalizeKeepsValues`).
* expr_trans_compare gives the wrong answer for m below a !
  (`TransCompareIsNotExact`), and for a bare symbol that is neither bool nor
  tristate, the value of which is n while its text differs from "n"
  (`BareSymbolAgainstNo`).
* The direct dependencies of a symbol with several entries are the disjunction of
  the conditions of those entries that have one: expr_alloc_or drops the others,
  as if no condition were n and not y. A symbol that one entry offers without any
  condition can so be turned to n by a select, although a change to y was accepted
  (`AcceptedChangeIsLost`; exactly when, in `AcceptedChangeExactly`).
* A tristate compared by < or > with the constants y, m and n is compared as a text,
  so that m < n (`NotLessThanM`).
* A symbol set to the value it already has is not recomputed, so the cache can
  hold a value that a fresh evaluation would not give (`UnchangedSetCanBeStale`;
  exactly when, in `UnchangedSet`).
* sym_check_choice_deps releases the choice before it looks at the members, so a
  cycle through a mention of the choice itself can be missed. No text can mention
  a choice by its name, as sym_lookup skips choices (symbol.c:801-802), but
  menu_finalize makes every entry within a choice depend on it. Where these are
  members and entries below them, nothing is missed (`CheckIsExact`). An entry of
  a menu in an if block of the choice is neither, and a cycle through it is missed
  (`CycleCanBeMissed`), because a choice without a name is in the first hash
  bucket, where the check starts. From another start it is found, so no condition
  on the mentions alone is exact for all orders of the symbols.
* A macro call with exactly 16 top-level commas stores one pointer behind the
  argument vector (`SixteenCommas`).

## Model

| member | source | states |
|---|---|---|
| ExprConstants.EliminateYnKeepsValue | scripts/config/expr.c:316-397 | Dropping y and n operands keeps the value of every expression under every well-typed assignment |
| ExprConstants.EliminateYnRemovesAll | scripts/config/expr.c:316-397 | No && or or below the root levels is left with an operand y or n |
| ExprConstants.EliminateYnShrinks | scripts/config/expr.c:316-397 | The expression is unchanged exactly if it had no constant operand, and otherwise strictly smaller |
| ExprEquality.EliminateEqFactors | scripts/config/expr.c:221-247 | One operator and one common part C account for the whole rewriting: old e1 = op(C, new e1) and old e2 = op(C, new e2) for all assignments, even when the two sides start as levels of different operators |
| ExprEquality.ExprEqSound | scripts/config/expr.c:252-302 | Expressions reported equal have the same value everywhere |
| ExprEquality.ExprEqExact | scripts/config/expr.c:252-302 | For expressions without y/n operands, equality is reported exactly if both are the same up to order and grouping, repeated operands counted |
| ExprEquality.EliminateEqDifference | scripts/config/expr.c:150-247 | What is left on each side is the multiset difference of the operands |
| ExprEquality.RepeatedOperandsDiffer | scripts/config/expr.c:246-302 | Operands are matched one to one, unlike the comment above expr_eq says: A && A && B and A && B && B differ |
| ExprJoin.JoinOrKeepsValue | scripts/config/expr.c:431-489 | Every or rule gives the value of the disjunction |
| ExprJoin.JoinAndKeepsValue | scripts/config/expr.c:495-586 | Every && rule gives the value of the conjunction unless two constants clash |
| ExprJoin.JoinAndExact | scripts/config/expr.c:536-553 | The joined expression means the conjunction if and only if the constants do not clash |
| ExprJoin.ComparisonsJoin | scripts/config/expr.c:458-571 | Any two comparisons of a tristate symbol with different ones of y, m and n by the same operator join to the opposite comparison with the third; = with != of another constant joins to =, of the same constant to n |
| ExprJoin.JoinsOfOr | scripts/config/expr.c:431-489 | Exactly which operands of or join: equal ones, two = tests of a tristate for different ones of y, m and n, and a bool with its negation |
| ExprJoin.JoinsOfAnd | scripts/config/expr.c:495-586 | Exactly which operands of && join: equal ones, a symbol with its test = y, != n or != m, a tristate with = and != tests against constants, and two != tests |
| ExprJoin.NumericConstantsClash | scripts/config/expr.c:540-553 | A concrete clash: A="1" && A!=m becomes A="1", which is not equivalent |
| ExprDups.DupEliminator.EliminateDups1 | scripts/config/expr.c:596-649 | A walk through two handles into one tree keeps the normal form, and the value unless it makes a wrong join; it counts no join if and only if no two operands below the handles could be joined; each counted join leaves a constant operand |
| ExprDups.DupEliminator.EliminateInOperand | scripts/config/expr.c:613-621 | An operand that is a level of the other operator is walked against itself, and joins are counted if and only if it has any |
| ExprDups.JoinStep | scripts/config/expr.c:623-646 | One join at two different operands of a nested level keeps the value of the whole unless the two constants clash, which they do not as long as no tristate is tested against a quoted constant for a tristate value |
| ExprDups.EliminateDups | scripts/config/expr.c:664-687 | The fixpoint loop ends; the result has the same value everywhere unless a wrong join was made, no two joinable operands at any level, and is no larger; it is the expression itself if and only if that had none, so a second pass changes nothing |
| ExprDups.YnStep | scripts/config/expr.c:679-684 | A counted join followed by expr_eliminate_yn strictly shrinks the expression |
| ExprTransform.TransformKeepsValue | scripts/config/expr.c:694-849 | Normalisation keeps the value |
| ExprTransform.TransformIsNormal | scripts/config/expr.c:694-849 | The result has ! only before symbols other than y, m and n, and compares no bool symbol with y, m or n by = or != |
| ExprTransform.NormalIsFixed | scripts/config/expr.c:694-849 | The normal forms are exactly the expressions left unchanged; so normalising twice is normalising once |
| ExprTransform.PushingDownIsLighter | scripts/config/expr.c:783-804 | Re-transforming after De Morgan terminates: the weight that doubles under ! falls |
| ExprTransform.TransBoolKeepsNonZero | scripts/config/expr.c:402-426 | On normal forms, whether the value is n is kept |
| ExprTransform.TransBoolRemovesAll | scripts/config/expr.c:402-426 | No comparison != n of a tristate symbol is left, and an expression without one is unchanged |
| ExprTransform.TransBoolIsNotExact | scripts/config/expr.c:402-426 | The value itself is not kept, and below a ! not even the distinction from n |
| ExprTransform.TransBoolExactly | scripts/config/expr.c:402-426 | On normal forms the value never grows; it changes exactly if it is y by tests != n of tristates at m alone, and then becomes m |
| ExprTransform.TransBoolAtTests | scripts/config/expr.c:402-426 | So it is kept while no tested tristate is m; where tests are joined by && to conditions without any, it is lost exactly if it is y and a tested tristate is m |
| ExprTransform.TestedAndKept | scripts/config/expr.c:402-426 | The shape of an expression does not decide it: C!=n or C=m loses its test, but never its value |
| ExprTransform.VisibilityUnchanged | scripts/config/menu.c:399-405 | After the promotion of m to y the visibility of a symbol that is not a tristate does not notice expr_trans_bool |
| ExprNodes.Node.EliminateYn | scripts/config/expr.c:316-397 | The in-place rewriting of the nodes computes EliminateYn on the tree they represent, with no node outside it touched |
| ExprNodes.Node.TransBool | scripts/config/expr.c:402-426 | The same for expr_trans_bool |
| ExprNodes.Transform | scripts/config/expr.c:694-849 | The same for expr_transform, with re-linked, re-used and newly allocated nodes |
| ExprNodes.PushDown | scripts/config/expr.c:783-804 | De Morgan on nodes: the inner node becomes the left !, a new node the right one |
| ExprNodes.Copy | scripts/config/expr.c:66-105 | A copy represents the same tree and shares no node |
| ExprNodes.ExprEq | scripts/config/expr.c:252-302 | Equality on nodes leaves both expressions alone and is equality of the trees |
| ExprNodes.EliminateEq | scripts/config/expr.c:221-247 | Both expressions are rewritten in place as EliminateEq says and stay separate |
| ExprNodes.EliminateEq1 | scripts/config/expr.c:150-191 | The walk over both trees with the replacement of equal leaves by new nodes |
| ExprCompare.TransCompareToNo | scripts/config/expr.c:922-985 | Inserting != n, wherever bare symbols are n exactly if their text is: e = y implies the answer y, which implies e != n; exact without !; the = form is the opposite answer |
| ExprCompare.BareSymbolAgainstNo | scripts/config/expr.c:977-978 | For a bare symbol the inserted comparison is right exactly if the symbol is bool, tristate, y, m or n, or its text is n; for any other string or undefined symbol it is wrong |
| ExprCompare.TransCompareIsNotExact | scripts/config/expr.c:942-945 | Below a ! the answer for m is wrong |
| ExprCompare.DependsSymbolIsRight | scripts/config/expr.c:879-917 | An entry reported to depend on a symbol, of whatever type, is n whenever the text of the symbol is n; for a bool or tristate, whenever its value is |
| ExprCompare.DependsSymbolExactly | scripts/config/expr.c:879-917 | A dependency is absolute exactly if an operand of the outermost && level is the symbol, the symbol = y or = m, or the symbol != n |
| ExprCompare.BelongsBelow | scripts/config/menu.c:455-494 | For symbols of every type: an entry put into an automatic submenu needs the symbol, or its condition at y (above n if it has no !) needs the condition of the parent where the texts of bare symbols agree with their values; and exactly which entries are put there |
| ExprCompare.SupersetIsStronger | scripts/config/menu.c:473-487 | Once all of the condition of the parent is cancelled, the condition of the entry is at most that of the parent |
| ExprCompare.SupersetExactly | scripts/config/menu.c:465-487 | For conjunctions without y/n the cancellation test holds exactly if the operands of the parent are among those of the entry |
| ExprText.PrintThenParse | scripts/config/expr.c:1138-1228 | Printing and parsing gives back the expression with && and or grouped to the left |
| ExprText.PrintThenParseKeepsValue | scripts/config/parser.tab.c:1893-1957 | Hence the same value, also for an absent condition |
| ExprText.PrintsAlike | scripts/config/expr.c:1104-1228 | Two expressions print alike exactly if they differ in grouping only |
| ExprText.LeftGroupedKeepsValue | scripts/config/expr.c:1104-1228 | Grouping to the left keeps the value |
| ExprText.OnlyNeededParentheses | scripts/config/expr.c:1104-1228 | Parentheses are printed around an or below an &&, around either below a !, and nowhere else |
| Exprs.LogicalEqualsConst | scripts/config/expr.c:998-1102 | A bool or tristate symbol equals a constant exactly if the constant denotes its value, 0, 1 and 2 included |
| ExprOrder.NumbersCompare | scripts/config/expr.c:998-1100 | Ints and numeric constants compare as decimal numbers under all six operators |
| ExprOrder.HexesCompare | scripts/config/expr.c:998-1100 | Hexes compare as unsigned numbers, with or without 0x |
| ExprOrder.TextsCompare | scripts/config/expr.c:1073-1100 | Two strings, and symbols one of which does not read as a number, compare in lexicographic order |
| ExprOrder.LogicalsCompare | scripts/config/expr.c:1005-1014 | Two bool or tristate symbols compare as n < m < y |
| ExprOrder.LogicalAgainstConst | scripts/config/expr.c:998-1100 | Against the constants y, m and n they compare as texts |
| ExprOrder.NotLessThanM | scripts/config/expr.c:1073-1092 | So no tristate is less than m, and exactly m is less than n |
| Symbols.ShownIsWellTyped | scripts/config/symbol.c:744-766 | The values that expressions see satisfy the typing assumptions the simplifier relies on |
| SymbolFacts.ComputeAgrees | scripts/config/symbol.c:299-440 | The value of a symbol depends only on what its declaration mentions, and on MODULES only for tristates |
| SymbolFacts.SameValueWithin | scripts/config/symbol.c:299-440 | User values outside a set closed under dependencies do not matter inside it |
| SymbolFacts.ValueGuarantees | scripts/config/symbol.c:345-385 | No m without meaning; failing direct dependencies beat a select, which otherwise is a lower bound; user values are bounded by visibility and select, defaults by their condition, imply and select |
| SymbolFacts.RecordedConditions | scripts/config/symbol.c:172-239 | Visibility is the highest prompt; it and the three dependency values are promoted exactly where m has no meaning |
| SymbolFacts.LogicalValue | scripts/config/symbol.c:345-388 | The exact value of a bool or tristate: from a visible user value, else the first default that applies and an imply, else the imply; n if selected without direct dependencies; at least the select; then promotion |
| SymbolFacts.TextValue | scripts/config/symbol.c:389-412 | The exact text of a string, int or hex: of a visible user value, else of the symbol named by the first default that applies, else empty; forced into the first range that applies |
| SymbolFacts.WithinRangeExactly | scripts/config/symbol.c:453-472 | A user value is accepted exactly if the symbol is more visible than selected, the value is no more than visible, and it is what would result |
| SymbolFacts.AcceptedChange | scripts/config/symbol.c:453-508 | A change within range takes effect, except that a symbol whose direct dependencies fail while it is selected becomes n |
| SymbolFacts.UnchangedSet | scripts/config/symbol.c:474-508 | Setting the value a symbol already has keeps it exactly under the stated condition on the recorded fields |
| SymbolFacts.UnchangedSetCanBeStale | scripts/config/symbol.c:474-508 | A concrete case where it does not: y by default behind a prompt that only offers m |
| SymbolFacts.OthersUnchanged | scripts/config/symbol.c:299-440 | If one symbol keeps its value, changing its user value changes no other |
| SymbolTables.SymbolTable.SymCalcValue | scripts/config/symbol.c:299-440 | Afterwards the symbol is valid and holds the value of the evaluator without cache, and so does every other valid symbol |
| SymbolTables.SymbolTable.CalcValue | scripts/config/symbol.c:299-440 | The same in the middle of other evaluations: symbols above the bound and symbols already valid are not touched |
| SymbolTables.SymbolTable.Evaluate | scripts/config/symbol.c:318-440 | The fields written after VALID and the placeholder are those of the evaluator without cache |
| SymbolTables.SymbolTable.CalcExpr | scripts/config/expr.c:1030-1102 | Evaluation of an expression through the cache gives its value |
| SymbolTables.SymbolTable.CalcVisibility | scripts/config/symbol.c:172-239 | Visibility and the three dependency values are those of the evaluator |
| SymbolTables.SymbolTable.CalcText | scripts/config/symbol.c:389-412 | The text of a string, int or hex symbol: user value, default or empty |
| SymbolTables.SymbolTable.ClearAllValid | scripts/config/symbol.c:442-451 | Forgetting everything and recomputing MODULES makes the cache exact |
| SymbolTables.SymbolTable.SetTristateValue | scripts/config/symbol.c:474-508 | Accepted exactly if within range or unchanged; a new value leaves the cache exact and the symbol at the value, or at n if it is selected while its direct dependencies fail; an unchanged value leaves it exact if and only if harmless |
| MenuConditions.AcceptedChangeTakesEffect | scripts/config/symbol.c:453-508 | Where prompts imply the direct dependencies, every accepted change takes effect |
| MenuConditions.EntryConditions | scripts/config/menu.c:349-405 | The conditions of an entry and of one of its prompts, and that the prompt is n whenever the entry is |
| MenuConditions.PromptsNeedDependenciesExactly | scripts/config/menu.c:503-503 | Prompts imply the direct dependencies of their symbol if and only if no prompt of an entry without a condition is visible while the conditions of all its other entries fail |
| MenuConditions.UniformEntries | scripts/config/menu.c:503-503 | In particular if all entries of the symbol have a condition, or none has |
| MenuConditions.AcceptedChangeExactly | scripts/config/symbol.c:453-508 | An accepted change takes effect if and only if nothing selects the symbol or not all entries with a condition fail |
| MenuConditions.AcceptedChangeIsLost | scripts/config/menu.c:503-503 | A tristate with one entry without a condition and one that fails, selected at m: the change to y is accepted, and the symbol becomes n |
| MenuConditions.RewriteMMeaning | scripts/config/menu.c:81-104 | A bare m counts as m && MODULES |
| MenuConditions.Inherit | scripts/config/menu.c:349-359 | The propagated condition is normal, free of duplicates and worth the conjunction of outer and own condition |
| MenuConditions.PropertyCondition | scripts/config/menu.c:393-405 | The same for a property, up to the promotion for symbols that are not tristates |
| MenuConditions.SimplificationKeepsValues | scripts/config/menu.c:349-405 | Replacing all conditions by their simplified forms keeps all values if and only if the reverse dependencies keep theirs, at the values before |
| MenuConditions.StoredReverse | scripts/config/menu.c:399-419 | What expr_trans_bool makes of a reverse dependency: n stays n, nothing grows, and it falls from y to m exactly if every select at y is in a symbol that is not a tristate and rests on tristates at m |
| MenuConditions.StoredReverseKept | scripts/config/menu.c:399-419 | A symbol that counts as bool never notices, and no symbol does while no tested tristate is m |
| MenuConditions.FinalizeKeepsValues | scripts/config/menu.c:349-419 | All values are kept if and only if every tristate that is selected or implied at y has a select or imply at y that does not fall |
| MenuConditions.SelectedValueFalls | scripts/config/menu.c:404-419 | A configuration in which one is not: a bool that selects T if C!=n, with C at m, makes T m instead of y |
| DependencyOrder.DepsBalanced | scripts/config/symbol.c:1225-1257 | The check leaves the CHECK marks as it found them and marks its symbol CHECKED |
| DependencyOrder.FinishOrder | scripts/config/symbol.c:1105-1257 | Without errors there is an order in which every symbol, and the members of every choice, come after all they need |
| DependencyOrder.ErrorMeansCycle | scripts/config/symbol.c:1105-1257 | Every reported error is a real cycle, a choice counting as one with its members |
| DependencyOrder.CheckIsExact | scripts/config/symbol.c:1188-1257 | If whatever mentions a choice from outside also mentions one of its members, or an entry below them, nothing is reported exactly if there is no cycle, a choice counting as one with its members |
| DependencyOrder.LenientCheckPasses | scripts/config/symbol.c:1252-1254 | Unless recursion is an error, nothing fails, whatever the configuration |
| DependencyCheck.GraphHoldsMentions | scripts/config/symbol.c:1105-1186 | The graph holds exactly the symbols in the conditions of a declaration, and in the values of its defaults unless it is a choice |
| DependencyCheck.EntryBelowMentions | scripts/config/menu.c:462-491 | An entry that menu_finalize puts below that of a symbol, such as a member of a choice, mentions the symbol |
| DependencyCheck.CycleCanBeMissed | scripts/config/symbol.c:1188-1223 | A configuration that is not so: A in a choice depends on X in a menu inside the choice; the cycle is missed when the check starts from the choice, and found when it starts from X |
| DependencyCheck.DependencyChecker.CheckDeps | scripts/config/symbol.c:1225-1257 | The marks and the result are those of the check on the graph of mentions |
| DependencyCheck.DependencyChecker.CheckChoiceDeps | scripts/config/symbol.c:1188-1223 | The same for a choice and its members |
| DependencyCheck.DependencyChecker.CheckExprDeps | scripts/config/symbol.c:1105-1137 | The same for an expression |
| DependencyCheck.DependencyChecker.CheckSymDeps | scripts/config/symbol.c:1140-1186 | The same for the conditions and properties of a symbol |
| DependencyCheck.DependencyChecker.CheckAllSymbols | scripts/config/parser.tab.c:2265-2272 | All symbols in turn, with the number of errors |
| DependencyCheck.CheckedMeansRanked | scripts/config/symbol.c:1105-1257 | A configuration without choices that passes the check has the evaluation order that the memoised evaluator needs |
| Choices.ChoiceBlock.CalcAll | scripts/config/symbol.c:172-440 | A choice at y has exactly one member at y, which is visible and is the pick of the user whenever that is visible; all others are n; without a visible pick the first default that applies with a visible member decides, else the first visible member; below y none is picked, a fully visible member is n, and no member exceeds the choice, given the conditions that menu_finalize makes |
| Choices.FinalizePrompt | scripts/config/menu.c:343-536 | The condition of a member prompt is n exactly if the choice, the entry or the prompt is, or if the choice is below y for a bool in a tristate choice; for a tristate it is the lowest of the three; it never exceeds the mode |
| Choices.ChoiceBlock.CalcChoice | scripts/config/symbol.c:267-297 | The selected member, and exactly when the choice loses its user flag |
| Choices.ChoiceBlock.ChoiceDefaultMember | scripts/config/symbol.c:241-265 | The member of the first default that applies and whose member is visible, else the first visible member, else none |
| Choices.ModeIsSettled | scripts/config/symbol.c:345-388 | The mode is the value of a symbol with the conditions of the choice, which only the user asks for |
| Choices.MemberVisibility | scripts/config/symbol.c:172-200 | A member is as visible as its highest prompt, where m counts as n for a tristate member while the choice is y |
| Choices.ChoiceBlock.SetMember | scripts/config/symbol.c:474-508 | In a choice at y only y or the present value is accepted, and what is recorded |
| Choices.ChoiceBlock.PickMember | scripts/config/symbol.c:474-508 | Picking a visible member takes effect although evaluation may have dropped the user flag of the choice |
| MenuShape.FinalizeHead | scripts/config/menu.c:305-582 | Finalising an entry keeps the written order of all entries |
| MenuShape.NestHeadTakes | scripts/config/menu.c:432-502 | An entry with a submenu or without a symbol takes no siblings; any other takes the run of those that belong below it |
| MenuShape.FinalizeHeadIs | scripts/config/menu.c:305-583 | Finalising is nesting and then splicing |
| MenuShape.FinalParents | scripts/config/menu.c:552-583 | The parent of every entry in the result is its nearest ancestor with a prompt, or the top, in the nested tree |
| MenuShape.FlattenKeepsPrompted | scripts/config/menu.c:574-583 | An entry with a prompt keeps exactly the submenu it has |
| MenuShape.FlattenKeepsOrder | scripts/config/menu.c:574-583 | Splicing out submenus of entries without a prompt keeps the order |
| MenuShape.AbsorbTakesRun | scripts/config/menu.c:455-502 | The entries taken below a symbol are a run of siblings that belong there, ended by the first that does not |
| MenuShape.FinalizeHeadLeavesNoneHidden | scripts/config/menu.c:574-583 | Afterwards no entry without a prompt has a submenu, at any depth |
| MenuTrees.MenuTree.Finalize | scripts/config/menu.c:305-583 | On the next, list and parent pointers: the entry ends up with the submenu of FinalizeHead, parent pointers consistent, no other entry touched, and the calls made are the entries taken, in order |
| MenuTrees.MenuTree.FinalizeChildren | scripts/config/menu.c:430-434 | The loop over an existing submenu |
| MenuTrees.MenuTree.AbsorbSiblings | scripts/config/menu.c:455-502 | Automatic submenu creation re-links the following entries that belong below |
| MenuTrees.MenuTree.FlattenChildren | scripts/config/menu.c:504-583 | The flattening loop re-links the pointers as Flatten says |
| MenuTrees.MenuTree.Reparent | scripts/config/menu.c:575-579 | The inner loop that gives spliced entries their new parent and stops at the last |
| MenuTrees.MenuTree.FinalizeRoot | scripts/config/menu.c:305-583 | Called for the root, every entry is finalised exactly once, in the written order, the tree keeps that order, and every parent pointer leads to the nearest ancestor with a prompt, or the root, in the nested tree |
| MenuTrees.MenuTree.Walk | scripts/config/confdata.c:871-915 | The list/next/climb walk visits every entry below the root exactly once, in order |
| MenuTrees.CloseSubmenu | scripts/config/menu.c:495-500 | The three pointer writes that cut the submenu out of the sibling list |
| MenuTrees.SpliceSubmenu | scripts/config/menu.c:574-583 | The three pointer writes that splice a submenu in |
| Blocks.ZeroCount | scripts/mkhash.c:573-599 | The zero bytes of the padding are the fewest possible |
| Blocks.PaddedInBits | scripts/mkhash.c:573-599 | In bits the padding is a single 1, zeros and the length |
| Blocks.PadShort | scripts/mkhash.c:579-586 | Mark, zeros and length in the block being filled complete the padded message |
| Blocks.PadLong | scripts/mkhash.c:587-599 | Mark and zeros in one block, zeros and length in the next, complete the padded message |
| Fips180.RoundConstants | scripts/mkhash.c:462-480 | Every round constant is the first 32 bits of the fractional part of the cube root of its prime |
| Fips180.InitialValue | scripts/mkhash.c:610-618 | The initial value consists of the leading bits of the fractional parts of the square roots of the first eight primes |
| Fips180.Choice | scripts/mkhash.c:450-450 | Ch has the bits of y where x has 1, and those of z where it has 0 |
| Fips180.Majority | scripts/mkhash.c:451-451 | Maj has every bit that x and y share, and none that neither has |
| Fips180.MajorityOfAnyTwo | scripts/mkhash.c:451-451 | And so for any two of the three |
| Sha256Macros.RoundAgrees | scripts/mkhash.c:491-500 | The macro with the optimised Ch and Maj is the round of FIPS 180-4, section 6.2.2 |
| Sha256.ViewRotates | scripts/mkhash.c:498-504 | Writing the slots of h and d and renaming is the shift of all eight registers |
| Sha256.Rndr | scripts/mkhash.c:491-504 | One round on the rotating array is one round of FIPS 180-4 |
| Sha256.Msch | scripts/mkhash.c:506-508 | The in-place schedule step computes the next word of the message schedule |
| Sha256.Transform | scripts/mkhash.c:458-560 | The transformation is the compression function of FIPS 180-4 |
| Sha256.Context.Init | scripts/mkhash.c:603-618 | The initial state holds the empty message |
| Sha256.Context.Update | scripts/mkhash.c:622-659 | Adding bytes in any portions: the context always holds exactly the message so far |
| Sha256.Context.Pad | scripts/mkhash.c:574-600 | The state after padding is the fold over the padded message |
| Sha256.Context.Final | scripts/mkhash.c:665-675 | The digest is that of FIPS 180-4 for every message below 2^64 bits, and the context is cleared |
| Sha256.HashChunks | scripts/mkhash.c:715-728 | For any way of cutting the input into chunks the result is the digest of the whole |
| Sha256.DecAfterEnc | scripts/mkhash.c:98-134 | be32dec gives back the word that be32enc stored |
| Sha256.EncAfterDec | scripts/mkhash.c:98-134 | be32enc stores the bytes that be32dec has read |
| Sha256.Be32enc | scripts/mkhash.c:98-107 | Four bytes are stored, the high one first, the others kept; be32dec reads the word back |
| Sha256.Be64enc | scripts/mkhash.c:110-117 | Eight bytes are stored, the high one first, the others kept |
| Sha256.Be32encVect | scripts/mkhash.c:427-433 | The words are stored with the high byte first |
| Md5Macros.FAgrees | scripts/mkhash.c:151-151 | The optimised F is that of RFC 1321 |
| Md5Macros.GAgrees | scripts/mkhash.c:152-152 | The optimised G is that of RFC 1321 |
| Md5Macros.SteppedAgrees | scripts/mkhash.c:160-163 | The STEP macro is one operation of section 3.4 of RFC 1321 |
| Md5.Transform | scripts/mkhash.c:208-287 | The sixty-four unrolled steps are the four rounds of RFC 1321 |
| Md5.CountsMore | scripts/mkhash.c:316-318 | The split counter: lo + 2^29*hi is the number of bytes modulo 2^61, carries included |
| Md5.Context.Hash | scripts/mkhash.c:311-343 | Adding bytes in any portions: the context always holds exactly the message so far |
| Md5.Context.End | scripts/mkhash.c:346-397 | The digest is that of RFC 1321 for every message, and the context is cleared |
| Md5.HashChunks | scripts/mkhash.c:700-713 | For any way of cutting the input into chunks the result is the digest of the whole |
| MacroFacts.TokensRejoin | scripts/config/preprocess.c:384-399 | Splitting a clause at its top-level commas loses nothing: joining gives the clause back |
| MacroFacts.JoinThenTokens | scripts/config/preprocess.c:384-399 | Nothing else is split: balanced tokens without such commas come apart as they were |
| MacroFacts.CloseMatches | scripts/config/preprocess.c:467-477 | The closing parenthesis found is the first one before which the text is balanced |
| MacroFacts.PlainText | scripts/config/preprocess.c:495-537 | A text without references expands to itself |
| MacroFacts.ExpandConcat | scripts/config/preprocess.c:495-537 | Complete texts expand independently of what follows, errors from left to right |
| MacroFacts.ExpandNoHigher | scripts/config/preprocess.c:251-277 | The expansion counts only guard: a text that expands does so to the same text with any lower counts |
| MacroFacts.SixteenCommas | scripts/config/preprocess.c:384-399 | A clause fits the argument vector if and only if it has at most 15 top-level commas; 17 or more are reported; exactly 16 are stored behind it |
| MacroFacts.SixteenCommasExist | scripts/config/preprocess.c:399-399 | Such a clause exists |
| Macros.RaiseCosts | scripts/config/preprocess.c:261-268 | Raising a count by one uses up one unit of the budget over all variables |
| Preprocess.Preprocessor.ExpandUntil | scripts/config/preprocess.c:495-537 | The cursor loop computes Expand, always ends, and leaves every count as it was unless it reports an error |
| Preprocess.Preprocessor.ExpandDollar | scripts/config/preprocess.c:453-488 | The reference after a $ and where the cursor is left |
| Preprocess.Preprocessor.Split | scripts/config/preprocess.c:384-399 | The in-place splitting fills the argument vector with the tokens, or fails as stated |
| Preprocess.Preprocessor.EvalTokens | scripts/config/preprocess.c:401-444 | Name and arguments are expanded in order, shifted, and looked up as variable, function and environment variable |
| Preprocess.Preprocessor.VariableExpand | scripts/config/preprocess.c:251-277 | Self-reference and depth errors, and the count raised and restored around the expansion |
| Preprocess.Preprocessor.VariableAdd | scripts/config/preprocess.c:279-322 | The list of variables after =, := and += |
| Preprocess.AssignedVariable | scripts/config/preprocess.c:279-322 | After any assignment the variable is found with the assigned text, after the old one and a space for +=, expanded at once if the variable is a := one, its count is kept, and no other variable has changed |
| Preprocess.SimpleIsImmediate | scripts/config/preprocess.c:309-321 | A reference to a := variable gives the text its value had when it was assigned, whatever the other variables are by then |
| Preprocess.RecursiveIsDeferred | scripts/config/preprocess.c:251-277 | A reference to a = variable gives what its text expands to at that time |
| MacroCalls.UnknownName | scripts/config/preprocess.c:64-85 | A reference to a name that is no variable and no function gives the environment variable if there are no arguments, and otherwise nothing |
| MacroCalls.FunctionCall | scripts/config/preprocess.c:96-232 | Each built-in gives its result for the right number of arguments and its error for any other |
| MacroCalls.VariableCall | scripts/config/preprocess.c:251-277 | A reference to a variable: the two guards, else the text as it is for :=, and its expansion with the arguments for = |
| MacroCalls.UserFunction | scripts/config/preprocess.c:346-446 | $(f,a1,...,ak) is the text of f with every $(i) replaced by ai |
| MacroCalls.ExpandTemplate | scripts/config/preprocess.c:361-366 | Expansion replaces $(i) by argument i and nothing else |
| MacroCalls.UnclosedReference | scripts/config/preprocess.c:467-483 | A reference without its closing parenthesis ends the program |
| MacroCalls.LoneDollar | scripts/config/preprocess.c:458-465 | Any other $ stands for itself |
| MacroCalls.TokenIsRun | scripts/config/preprocess.c:559-575 | A token ends at the first character other than letters, digits, _, -, . and / |
| Escape.RoundTrip | scripts/config/confdata.c:261-276 | Reading an escaped value gives the value, whatever follows; the first quote that is not escaped closes it |
| Escape.EscapeStringValue | scripts/config/symbol.c:850-891 | The buffer has exactly the computed length and holds the quoted, escaped value |
| Escape.EscapedLength | scripts/config/symbol.c:857-869 | One more byte for each special character |
| Escape.QuotesAndBackslashes | scripts/config/symbol.c:857-869 | The special characters are the quote and the backslash |
| Escape.BackslashHides | scripts/config/confdata.c:264-271 | A backslash hides any character from the reader |
| Escape.NoQuoteNoValue | scripts/config/confdata.c:261-271 | Without a quote no value is read |
| Escape.Unescape | scripts/config/confdata.c:264-276 | Removing backslashes in place yields the value of the reference reader, also for a backslash at the very end |
| Escape.SetStringVal | scripts/config/confdata.c:261-276 | Exactly when a line is ignored, invalid or a value, and which |
| Escape.ReadFrom | scripts/config/confdata.c:264-271 | What is read consists of characters of the line |
| Crc32.TableIsBits | scripts/cfe-partition-tag.py:25-90 | All 256 entries of the table are eight steps of division |
| Crc32.TableStep | scripts/cfe-partition-tag.py:98-98 | A step with the table is eight single steps |
| Crc32.Crc32 | scripts/cfe-partition-tag.py:95-100 | The loop computes the checksum of the first size bytes |
| Crc32.CrcIsRemainder | scripts/cfe-partition-tag.py:95-100 | The checksum is the remainder of bit-wise division by 0x04C11DB7, in reflected order, for every message and initial value |
| Crc32.CrcConcat | scripts/cfe-partition-tag.py:95-100 | Checksums can be continued over a concatenation |
| Crc32.RegisterIsKept | scripts/cfe-partition-tag.py:95-100 | Different registers stay different over any message |
| Crc32.DetectsBursts | scripts/cfe-partition-tag.py:95-100 | Messages that differ only within four consecutive bytes have different checksums |
| Crc32.DetectsByte | scripts/cfe-partition-tag.py:95-100 | In particular messages that differ in one byte |

## Left out

- MenuTrees.MenuTree.Finalize: entries are numbers and their pointers sequences indexed by them, so allocation of entries is not modelled; warnings, the P_CHOICE bookkeeping at menu.c:505-550 and the reverse dependency of non-optional choices are not either.
- SymbolTables.SymbolTable.SymCalcValue: symbols without choices only, range bounds are clamping functions of the text instead of symbols, and the WRITE, CHANGED and NO_WRITE flags, sym_set_all_changed and defconfig lists are left out.
- SymbolTables.SymbolTable.SetTristateValue: bool and tristate symbols only; sym_set_string_value and sym_toggle_tristate_value are left out.
- Choices.ChoiceBlock.CalcAll: one choice among fixed surroundings, members without defaults of their own and defaults of the choice that are members, as menu_finalize warns otherwise.
- Choices.ChoiceBlock.CalcMember: nothing computes the dependency values of a member, so they are n; warnings about unmet dependencies are left out.
- DependencyOrder.CheckIsExact: range bounds are not walked by the code either; check_top and the printed trace of a cycle are left out.
- ExprDups.EliminateDups: one level of tree is a value held in a field and handles are paths into it, so the reuse of freed nodes is not modelled; trans_count is, its saving and restoring in expr_eq is not.
- ExprNodes.Node.EliminateYn: freed nodes stay in the set of owned nodes; free itself is not modelled.
- ExprText.PrintThenParse: symbols are single tokens, so quoting and the lexer are left out, as are E_LIST and E_RANGE; the parser tables are represented by the grammar with its precedences.
- ExprCompare.TransCompareToNo: comparison with y or n only, as the callers do.
- Preprocess.Preprocessor.ExpandUntil: the shell, the environment, the file name and the line number are parameters; the list of environment variables used and the messages of info and warning-if are left out; strings hold no NUL.
- Preprocess.Preprocessor.VariableAdd: a := whose text refers to the variable being defined reads memory that was never set or already released; the model has the old text there, or the empty one.
- Preprocess.Preprocessor.Split: what follows the store behind the argument vector is undefined in C; the model stops with an error of its own.
- Escape.SetStringVal: sym_string_valid accepts every string, so only the string case is modelled; a line holds no newline because it was read as a line.
- Sha256.Context.Update: the bit counter and its shifts are arithmetic modulo 2^64; memcpy is a parallel assignment.
- Md5.Transform: the little-endian read of a word is arithmetic on its four bytes on every machine.
- Crc32.Crc32: the initial value has 32 bits; the layout of the tag and argument parsing are left out.
- User interfaces, file access, depfiles, help texts, symbol search, random configurations, allocation and the image and download scripts are not part of this model.
