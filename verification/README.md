# Verified models of OpenWrt's host tools

OpenWrt's build system configures itself with Kconfig (`scripts/config`), hashes files with `mkhash`
(`scripts/mkhash.c`) and pads firmware images with `padjffs2` (`tools/padjffs2`). This project models the parts of
these programs with the most logic in them and proves what they are meant to guarantee. `dafny verify dfyconfig.toml`
checks everything.

## Parts

| files | subject |
|---|---|
| Expressions, Values, Equality, Canonical, Rearrangement | three-valued dependency expressions (n < m < y) and what their values mean, constant folding, `expr_eq`, cancelling of common operands |
| Joins, JoinRules, Positions, Redundancy | `expr_eliminate_dups`: the rules for joining operands, two walkers that may point into the same tree, a global change count, a loop that ends because a change leaves an operand that folding removes |
| Normalization, ExprNodes, Cancelling | `expr_transform`, and the rewriters that overwrite nodes, on heap nodes or on trees that change at positions |
| Conditions | what `menu_finalize` uses them for: `rewrite_m`, prompt conditions, `expr_trans_compare`, the decision on automatic submenus |
| Printing | `expr_print` against the expression grammar |
| Submenus | where `menu_finalize` leaves items, and what they depend on there |
| Kconfig, SymbolValues, Evaluation, Dependencies, Checking, Loading | symbol values as the solution of equations and what it says of one symbol, the memoising evaluator, dependencies, the cycle check, and all together |
| Definitions | symbols defined in several places, and when a value that is set comes back |
| MenuTree, MenuShape, MenuBuilding, Menus, MenuWalk, MenuLines | the menu tree: built through a pointer to a pointer, rearranged by `menu_finalize`, walked without recursion and written line by line |
| Escaping, ConfigLines, ConfigReading, ConfigFile, ConfigText | `.config`: one string, one line, a file cut into lines and read, a whole file written and read back, and the text itself |
| Preprocessing, MacroCalls, Expanding | macro expansion, what single references stand for, and the counters that bound it |
| Hashing, Sha256, Sha256Constants, Sha256Example, Md5, Md5Example | the streaming hashes against FIPS 180-4 and RFC 1321, where the constants come from, and a published digest for each |
| Characters | the character tests they share, and numbers as text |
| Arithmetic, Padding | division facts; `padjffs2` |

## How to read the model

* A `Valuation` gives bool symbols n or y and tristate symbols any of n, m and y. Values are computed as in
  `expr_calc_value`, including its three ways of comparing symbols.
* `struct expr **` is a position in a tree (`Path`); two of them may lie in the same tree or be equal. In module
  ExprNodes nodes are heap objects. NULL expressions are `None` and stand for y.
* Symbol states live in one map from symbols to records of the fields `sym_calc_value` fills in. Menu nodes are
  numbers in the order of allocation; their `list`, `next` and `parent` pointers are three maps.
* `Context`, `Looping`, `Walked` and similar predicates are loop and recursion invariants.
* A `uint32_t` is a `bv32` in the hashes, and a number below 2^32 where it counts bytes; a mask in `padjffs2` is the set
  of its bits.
* Functions such as `Compute`, `Written` or `Digest` say what the code computes. What they mean is said without them: by
  an order, a least index, a table of rules, the walk over the tree, the literal text, or a published digest. Modules
  Values, SymbolValues, Dependencies, JoinRules, MenuLines, ConfigText, MacroCalls, Sha256Constants, Sha256Example and
  Md5Example are about that.
* Where the code and its comments disagree, the model follows the code. `expr_join_and` rewrites
  `(a!='m') && (a!='n')` to `a='y'`, its comment says `a='m'`. `expr_trans_compare` says it computes `e = s` or
  `e != s`; for a negation whose operand is m it does not (`Conditions.NegationComparedIff`). `expr_eq` is described
  as equality up to commutativity and associativity. Without y and n operands it is exactly that
  (`Rearrangement.ExprEqDecidesRearrangement`). With them it is neither transitive nor complete, and can also be true
  of expressions that are not rearrangements of each other (`ExprEqNotTransitive`, `ExprEqMissesConstants`,
  `ExprEqConfusesConstants`); what it says is equal always has equal values.
* An automatic submenu below a symbol without a prompt is dissolved again, says a comment in `menu_finalize`. It is, but
  its items stay below the parent of that symbol, which they need not depend on (`Submenus.HiddenSymbolTakes`).
* Prompts may hold newlines: macros can bring them in. A file is one text, and `compat_getline` cuts it.
* A comparison by text looks at the text each symbol shows, which for y, m, n and for bool and tristate symbols is the
  letter of their value; the order of other texts is a table.

Some properties one might expect turn out to hold only under a condition, and the condition is exact:
joins are sound unless a comparison spells a tristate value as a quoted numeral (`Joins.JoinExact`);
`expr_depends_symbol` is sound exactly for bool and tristate symbols (`Conditions.DependsSoundIff`); printing and
reading back keeps the operands exactly if every symbol is found under its printed name, which quoted constants are
not (`Printing.RereadCanon`); a set value comes back exactly if the symbol's dependencies are met or nothing selects it
(`Evaluation.SymbolTable.SetAndRecalculate`), and a visible symbol's dependencies are met unless it is defined both
with and without dependencies and those written all fail (`Definitions.SetComesBackIff`); and padding reaches its
boundaries exactly if the length can be rounded up in 32 bits or needs no rounding (`Padding.MarkedIff`); and the
prompt of a menu, written into `.config`, sets nothing exactly if it does not begin like an unset symbol and none of
its further lines sets one (`ConfigFile.PromptSilentIff`). Inputs that fail are given in
`Joins.QuotedNumeralBreaksJoin`, `Printing.QuotesLost`, `Definitions.SetValueLost`, `Padding.EndOfRange`,
`ConfigFile.PromptMisread` and `ConfigFile.NewlineMisread`.

## Model

| member | source | states |
|---|---|---|
| Values.OneOrderHolds | scripts/config/expr.c:1085-1097 | between any two symbols exactly one of <, = and > is y, and the other comparisons follow |
| Values.SwitchesCompare | scripts/config/expr.c:1068-1097 | bool and tristate symbols compare by value, for all six comparisons |
| Values.NumeralsCompare | scripts/config/expr.c:1068-1097 | against a quoted numeral, on either side, a bool or tristate counts as 0, 1 or 2 |
| Values.LettersCompare | scripts/config/expr.c:1078-1097 | against y, m and n it compares as a letter, m before n before y |
| Values.WordsDiffer | scripts/config/expr.c:1078-1087 | a quoted word that is no numeral never equals a bool or tristate |
| Values.LetterOrderDiffers | scripts/config/expr.c:1078-1095 | so a symbol that is m is less than the constant n, but not less than a symbol that is n |
| Values.ConnectivesBound | scripts/config/expr.c:1045-1052 | AND is the greatest value below both operands, OR the least above both |
| Values.NotReverses | scripts/config/expr.c:1053-1055 | NOT reverses the order, is its own inverse and keeps exactly m |
| Values.SymbolsValue | scripts/config/expr.c:1042-1044 | y, m and n stand for themselves, symbols for their value, and quoted text for n |
| Equality.EliminateYnCorrect | scripts/config/expr.c:316-397 | constant folding keeps the value under every valuation |
| Equality.EliminateYnShape | scripts/config/expr.c:316-397 | folding leaves no y or n operand, never grows the tree and shrinks it if there was an identity operand |
| Equality.EliminateYnIdle | scripts/config/expr.c:316-397 | folding does nothing to an expression without y or n operands |
| Equality.CancelWalkFactor | scripts/config/expr.c:150-190 | under every valuation one cancelling walk splits the same value off both expressions |
| Equality.CancelBothFactors | scripts/config/expr.c:221-241 | expr_eliminate_eq's two walks split off a common value of each kind |
| Equality.ExprEqSound | scripts/config/expr.c:252-303 | expr_eq never identifies expressions that differ in value under some valuation, constants included |
| Equality.SupersetImplies | scripts/config/menu.c:457-470 | if expr_eliminate_eq reduces the second expression to y, the first implies it, value by value |
| Canonical.CancelWalkLive | scripts/config/expr.c:150-190 | greedy one-to-one matching cancels exactly the multiset intersection of the operands, so it is complete |
| Canonical.EliminateYnLive | scripts/config/expr.c:316-397 | folding after cancelling drops exactly the replaced operands |
| Canonical.ExprEqExact | scripts/config/expr.c:252-303 | without y or n operands expr_eq answers true if and only if the operands agree on every level, with multiplicity |
| Rearrangement.SameCanonRearranges | scripts/config/expr.c:246-251 | expressions with the same operands on every level can be turned into each other by swapping and regrouping |
| Rearrangement.ExprEqDecidesRearrangement | scripts/config/expr.c:252-303 | expr_eq is true if and only if one expression becomes the other by commutativity and associativity |
| Rearrangement.ExprEqIsEquivalence | scripts/config/expr.c:252-303 | on such expressions expr_eq is reflexive, symmetric and transitive |
| Rearrangement.ExprEqNotTransitive | scripts/config/expr.c:252-303 | with y operands it is not transitive: expressions x, y, z with x equal to y and y to z, but not x to z |
| Rearrangement.ExprEqMissesConstants | scripts/config/expr.c:150-190 | nor complete: a pair that swapping and regrouping makes the same, and greedy matching misses |
| Rearrangement.ExprEqConfusesConstants | scripts/config/expr.c:167-172 | nor limited to rearrangements: "n && a" and "n && b" are equal for it |
| Rearrangement.ExprEqMissesValues | scripts/config/expr.c:246-251 | it is not equality of values either: "a && a" and a |
| Joins.JoinOrSound | scripts/config/expr.c:431-493 | joining under OR keeps the value, except for aliased numerals |
| Joins.JoinAndSound | scripts/config/expr.c:495-587 | joining under AND keeps the value, except for aliased numerals |
| Joins.JoinExact | scripts/config/expr.c:431-587 | a join keeps the value under every valuation if and only if the operands do not compare one switch with two spellings of one value |
| Joins.QuotedNumeralBreaksJoin | scripts/config/expr.c:540-553 | a failing input: (a = "0") && (a != n) |
| Joins.JoinSound | scripts/config/expr.c:431-587 | without such numerals a join is sound, smaller than its two operands and of the same kind |
| JoinRules.JoinFoundIff | scripts/config/expr.c:431-587 | two operands are joined, and to what, exactly if expr_eq takes them for equal or one of eleven rules applies to them in either order |
| Redundancy.Rewriter.EliminateDups1 | scripts/config/expr.c:596-651 | with both walkers in one tree, aliasing or not: the value of the operator node is kept, a raised count leaves an identity operand behind, and the count is unchanged if and only if no pair below the walkers can be joined |
| Redundancy.Rewriter.JoinOperands | scripts/config/expr.c:628-648 | one comparison of two operands: the writes through both pointers keep the value, and there is no write if and only if there is no join |
| Redundancy.Rewriter.EliminateDups | scripts/config/expr.c:664-686 | the loop ends, restores the outer count, keeps the value under every valuation and leaves no two operands that can be joined, on any level; trees of which that is true already, and no others, are left alone |
| Redundancy.Deduplicate | scripts/config/expr.c:664-686 | the same for callers, with NULL kept; deduplicating twice is deduplicating once |
| Normalization.TransformSound | scripts/config/expr.c:694-849 | expr_transform keeps the value under every well-typed valuation; its recursion ends although De Morgan transforms rebuilt nodes again |
| Normalization.TransformNormal | scripts/config/expr.c:694-849 | the result is in negation normal form, NOT only above symbols that are not constants, no comparison of a bool symbol with y, m or n |
| Normalization.TransformFixesNormal | scripts/config/expr.c:694-849 | expr_transform leaves normal forms alone |
| Normalization.TransformIdempotent | scripts/config/expr.c:694-849 | transforming twice is transforming once |
| Normalization.NormalIffFixed | scripts/config/expr.c:694-849 | the normal forms are exactly the fixed points |
| Normalization.TransformNumeralFree | scripts/config/expr.c:694-849 | no comparison with a numeral that spells a tristate value is introduced |
| Dependencies.TransformKeepsOrder | scripts/config/expr.c:694-849 | unless a constant is decided, expr_transform leaves every symbol in its place |
| ExprNodes.EliminateYnInPlace | scripts/config/expr.c:316-397 | overwriting nodes, the same root node ends up holding the folded expression |
| ExprNodes.TransBoolInPlace | scripts/config/expr.c:402-426 | in place, the root node ends up holding the expression without comparisons to n |
| ExprNodes.TransformInPlace | scripts/config/expr.c:694-849 | freeing, reusing and allocating nodes, the returned node holds the transformed expression and owns its tree |
| ExprNodes.PushNegation | scripts/config/expr.c:794-811 | De Morgan's step reuses two nodes and allocates one; the tree holds the rewritten expression |
| Cancelling.Trees.Cancel | scripts/config/expr.c:150-190 | both trees end up as the walk on values says, changed only at and below the two positions; an unchanged count means unchanged trees |
| Cancelling.Trees.EliminateEqInPlace | scripts/config/expr.c:221-241 | the two trees end up as expr_eliminate_eq on values |
| Conditions.RewriteMMeans | scripts/config/menu.c:83-106 | after rewrite_m, m evaluates to n without MODULES and keeps its value with it |
| Conditions.TransBoolKeepsNo | scripts/config/expr.c:402-426 | expr_trans_bool does not change whether a normal form is n |
| Conditions.TransBoolDone | scripts/config/expr.c:402-426 | it leaves no test of a tristate for != n, and changes nothing else |
| Conditions.TransBoolUnderNot | scripts/config/expr.c:402-426 | under a negated comparison it does: a concrete valuation |
| Conditions.VisibleIsNonzero | scripts/config/symbol.c:187-201 | a symbol treated as bool is visible exactly if some prompt condition is not n |
| Conditions.Propagate | scripts/config/menu.c:379-384 | rewritten, transformed, joined with the base dependency and deduplicated, a condition has the value of "base && condition" |
| Conditions.PromptCondition | scripts/config/menu.c:379-386 | the whole pipeline agrees with "base && condition" on being n, and on the value for tristate symbols |
| Conditions.PromptConditions | scripts/config/menu.c:353-386 | after the pipeline over all prompts, the symbol is visible exactly if the base dependency and one written condition hold |
| Conditions.TransCompareExact | scripts/config/expr.c:922-985 | what expr_trans_compare computes, for every expression and valuation: tests of symbols under two-valued negation |
| Conditions.TransCompareMeaning | scripts/config/expr.c:908-985 | it is the comparison with y or n whenever no negated subexpression is m |
| Conditions.NegationComparedIff | scripts/config/expr.c:953-954 | a negated symbol is compared correctly if and only if it is not m |
| Dependencies.DependsSymbolIff | scripts/config/expr.c:879-906 | expr_depends_symbol is true exactly if one of the AND operands, wherever it stands, is the symbol, or compares it = y, = m or != n |
| Conditions.DependsImplies | scripts/config/expr.c:879-906 | an expression that depends on a bool or tristate symbol is n whenever the symbol is |
| Conditions.DependsSoundIff | scripts/config/expr.c:879-906 | expr_depends_symbol is sound for a symbol if and only if its tristate value is all there is to it |
| Conditions.NotNo | scripts/config/menu.c:436-438 | a condition compared with n, transformed and deduplicated, keeps the value of the comparison, and is the transformed comparison if and only if there is nothing to deduplicate |
| Conditions.Absorbs | scripts/config/menu.c:435-475 | an item goes into a submenu only if its condition implies the symbol, or else, each of its symbols tested for n, the symbol's prompt condition; so it implies that condition itself where no negated subexpression of the item is m. A symbol without a prompt takes exactly the items that mention it |
| Conditions.SubmenuNeedsDecidedNegations | scripts/config/menu.c:457-470 | the proviso on the item is needed: an item that contains the symbol without depending on it, a prompt and a valuation; there is nothing to deduplicate in either test, and the answer is yes |
| Printing.Precedence | scripts/config/expr.c:1104-1228 | parentheses stand around an OR in an AND and around an AND or OR in a NOT, and nowhere else |
| Printing.PrintParse | scripts/config/expr.c:1138-1228 | the printed tokens, read with NOT above AND above OR, always parse, to the same expression with chains nested to the left |
| Printing.RereadCanon | scripts/config/parser.y:438-448 | what is read back has the same operands on every level if and only if every symbol is found under its printed name |
| Printing.QuotesLost | scripts/config/expr.c:1160-1166 | a failing input: FOO = "bar" is read back as a comparison with the symbol bar, with another value |
| Printing.RereadValue | scripts/config/parser.y:438-448 | when every symbol is found under its printed name, what is read back has the same value under every valuation |
| Printing.RereadPrints | scripts/config/expr.c:1104-1228 | what is read back prints the same again |
| Printing.PrintsAlikeIff | scripts/config/expr.c:1104-1228 | two expressions print alike if and only if they are read back alike |
| Kconfig.ComputeLocal | scripts/config/symbol.c:302-444 | a symbol's status depends only on the symbols its definition mentions |
| Kconfig.ExistsSolution | scripts/config/symbol.c:302-444 | on an acyclic graph every choice of user values has values that satisfy all symbols' equations |
| Kconfig.UniqueSolution | scripts/config/symbol.c:302-444 | and only one |
| Kconfig.SolutionWellTyped | scripts/config/symbol.c:389-390 | these values are a well-typed valuation, and without modules nothing is m |
| SymbolValues.UserValueCounts | scripts/config/symbol.c:357-390 | in a solution, a symbol with a visible prompt and a user value has the lesser of that value and the greatest prompt condition, before reverse dependencies |
| SymbolValues.DefaultCounts | scripts/config/symbol.c:367-390 | any other has the value of its defaults, lifted to what implies it as far as its dependencies go |
| SymbolValues.FirstDefaultWins | scripts/config/symbol.c:83-94 | where nothing else decides, the first default whose condition is not n gives the value: the lesser of value and condition, y for m on a bool or without modules |
| SymbolValues.NoDefaultIsNo | scripts/config/symbol.c:83-94 | and without such a default the symbol is n |
| SymbolValues.FieldsMean | scripts/config/symbol.c:175-236 | visibility is the greatest prompt condition; absent dependencies are y, absent reverse dependencies n; a symbol is written unless visibility, reverse dependencies, implied value and all default conditions are n |
| Evaluation.SymbolTable.EvalExpr | scripts/config/expr.c:1030-1102 | evaluating while calculating symbols on the way returns the value under the solution and keeps the VALID invariant |
| Evaluation.SymbolTable.CalcValue | scripts/config/symbol.c:302-444 | afterwards the symbol is valid, everything valid agrees with the solution, and what was valid is unchanged |
| Evaluation.SymbolTable.CalcVisibility | scripts/config/symbol.c:175-236 | visible, dir_dep, rev_dep and implied are those the solution demands |
| Evaluation.SymbolTable.CalcCurrent | scripts/config/symbol.c:352-391 | curr and SYMBOL_WRITE are those the solution demands |
| Evaluation.SymbolTable.CalcEach | scripts/config/symbol.c:302-444 | from no valid symbol, any queries in any order: every queried symbol, and every other valid one, has in all fields the status of the unique solution |
| Evaluation.SymbolTable.ClearAllValid | scripts/config/symbol.c:446-455 | all VALID flags are cleared and nothing else changes |
| Evaluation.SymbolTable.SetTristateValue | scripts/config/symbol.c:476-510 | accepted exactly for the current value or one within range; the whole new state in each case |
| Evaluation.SymbolTable.SetAndRecalculate | scripts/config/symbol.c:357-391 | after an accepted change recalculation yields the value set if and only if dir_dep was not n or rev_dep was n |
| Evaluation.SymbolTable.ToggleTristateValue | scripts/config/symbol.c:512-533 | the loop ends at the first settable of the next two values in the order n, m, y, n, or else at the current one, returns it and has set it |
| Evaluation.SetComputes | scripts/config/symbol.c:457-474 | the solution for the changed user value has that value at the symbol exactly under the same condition |
| Evaluation.ToggleOrder | scripts/config/symbol.c:512-533 | toggling tries the next two values in the order n, m, y, n, then stays |
| Evaluation.SettableIff | scripts/config/symbol.c:457-474 | a value is within range exactly if the symbol is more visible than selected and calculating with it as the user value gives it back |
| Evaluation.ChangeableIff | scripts/config/symbol.c:770-773 | two different values can be set exactly if the symbol is more visible than selected |
| Definitions.DirDepIff | scripts/config/menu.c:483 | dir_dep is not n exactly when the dependencies are met in some place, if and only if the symbol has dependencies in all places or in none, or some written ones are met |
| Definitions.FinalizeLocation | scripts/config/menu.c:353-386 | after the pipeline on one node, no prompt is visible where the node's dependencies fail |
| Definitions.SetComesBackIff | scripts/config/symbol.c:357-391 | a value set within range is the value of the new solution if and only if the symbol has dependencies in all places or in none, or some written ones are met, or nothing selects it |
| Definitions.SetValueLost | scripts/config/menu.c:483 | a failing input: S, once with a prompt and once with "depends on n", selected by T which is m, is set to y and calculated to be n |
| Dependencies.DependsOnIff | scripts/config/symbol.c:1099-1145 | a symbol depends on another exactly if that occurs in dir_dep, rev_dep, implied, the condition of a property other than select and imply, or the value of a default |
| Dependencies.SelectConditionRanked | scripts/config/symbol.c:1124-1139 | "A selects B if C" and "C depends on A" is no cycle, for any three symbols, nor is imply; "A default y if C" is one |
| Checking.RanksExcludeCycles | scripts/config/symbol.c:1064-1145 | a ranking of the dependencies and a cycle exclude each other |
| Checking.SortedGivesRanks | scripts/config/symbol.c:1184-1216 | the order in which symbols are marked CHECKED is such a ranking |
| Checking.Checker.CheckDeps | scripts/config/symbol.c:1184-1216 | clears the CHECK bits it set and restores check_top; a symbol returned is on a cycle; otherwise all dependencies are checked |
| Checking.Checker.CheckSymDeps | scripts/config/symbol.c:1099-1145 | the same for one symbol's expressions, with the stack put back |
| Checking.Checker.CheckExpr | scripts/config/symbol.c:1064-1096 | the same for one expression |
| Checking.Checker.CheckAll | scripts/config/parser.y:506-509 | the search ends in either mode and leaves no CHECK bit; with recursive_is_error it reports an error if and only if the graph has a cycle, without it never |
| Loading.CheckAndCalculate | scripts/config/parser.y:478-513 | errors exactly for cyclic graphs; otherwise the equations have exactly one solution and every calculated symbol has its status |
| MenuShape.FlattenCorrect | scripts/config/menu.c:554-563 | flattening keeps the source order and leaves children only under prompts |
| MenuShape.FinalizeCorrect | scripts/config/menu.c:285-592 | whatever is absorbed and flattened, the order of a node's children and later siblings is kept |
| MenuShape.FinalizeAllCorrect | scripts/config/menu.c:406-411 | finalising the children one by one keeps their order, although each may absorb later ones |
| MenuShape.AbsorbCorrect | scripts/config/menu.c:435-482 | the absorbed items and those left are the old siblings, in order |
| MenuShape.AbsorbMaximal | scripts/config/menu.c:441-476 | every item taken is one that may be, and the first that stays is not |
| MenuShape.FinalizeTakes | scripts/config/menu.c:406-482 | only a symbol without children takes items, and then all it can |
| MenuShape.FlattenKeeps | scripts/config/menu.c:554-563 | a node with a prompt keeps its children, another gives them up to its own level |
| Submenus.FinalizeRelated | scripts/config/menu.c:431-564 | any relation that holds between parents and children in the source, holds where items are absorbed and passes through nodes without a prompt text, holds between parents and children afterwards |
| Submenus.AbsorbsEntry | scripts/config/menu.c:435-475 | an item taken is active only if the symbol or its prompt is not n |
| Submenus.FinalizeEntry | scripts/config/menu.c:324-386 | the pipeline on a child makes it active only if its parent in the source is open |
| Submenus.FinalizeMenu | scripts/config/menu.c:285-592 | in the finished menu, along its parent pointers, every item is active only if its parent is open, wherever it was moved, unless it came through a symbol without a prompt |
| Submenus.HiddenSymbolTakes | scripts/config/menu.c:526-564 | a failing input: an item that mentions a symbol without a prompt ends up below that symbol's parent, on which it does not depend |
| MenuBuilding.InsertLast | scripts/config/menu.c:48-64 | an entry added through last_entry_ptr comes last in source order |
| MenuBuilding.InsertChain | scripts/config/menu.c:48-64 | the write through last_entry_ptr yields the pointers of the tree with the new node |
| MenuBuilding.LeaveMenu | scripts/config/menu.c:73-77 | leaving the current menu leads to the place after it, in its parent |
| Menus.MenuTable.constructor | scripts/config/menu.c:42-46 | the empty tree, with the parser at the root |
| Menus.MenuTable.AddEntry | scripts/config/menu.c:48-64 | after any calls, the pointers are those of a tree whose preorder is the order of the calls |
| Menus.MenuTable.AddMenu | scripts/config/menu.c:66-71 | keeps that, with entries now below the last one |
| Menus.MenuTable.EndMenu | scripts/config/menu.c:73-77 | keeps that, with entries now after the menu left |
| Menus.MenuTable.FinalizeMenu | scripts/config/menu.c:285-592 | the pointers afterwards are those of the reshaped tree, nothing else changed, and the nodes finalised are, each once, the node and the nodes then below it in source order |
| Menus.MenuTable.AbsorbItems | scripts/config/menu.c:431-482 | the loop and its relinking of list and next |
| Menus.MenuTable.FlattenChildren | scripts/config/menu.c:487-564 | the loop that splices children behind their parent |
| Menus.MenuTable.Reparent | scripts/config/menu.c:555-559 | a chain gets a new parent; its last node is found |
| Menus.MenuTable.FinalizeRoot | scripts/config/parser.y:505 | after menu_finalize on the root the preorder is still the order of creation, parent pointers are consistent, every node with children has a prompt text, each node was finalised exactly once, in source order, and the tree is the one the functions on shapes give |
| MenuWalk.WriteConfig | scripts/config/confdata.c:958-1003 | the loop with its two labels ends, and does what the recursive walk over the tree does, in the same order |
| MenuWalk.EndCheck | scripts/config/confdata.c:989-1002 | nodes are left, in order, until one has a next sibling |
| MenuWalk.VisitAll | scripts/config/confdata.c:854-909 | the loop of conf_write_defconfig ends and visits every node once, in source order |
| MenuWalk.WrittenNested | scripts/config/confdata.c:958-1003 | the titles of visible menus and the "# end of" lines nest as brackets |
| MenuWalk.WrittenOnce | scripts/config/confdata.c:970-981 | each symbol is written once, and exactly those with an entry and SYMBOL_WRITE |
| MenuLines.LinesDue | scripts/config/confdata.c:958-1003 | the lines of the file, but for blank ones, are what each event of the walk asks for by itself: a title, an end, or a setting at the first entry of a symbol to be written |
| MenuLines.BlankLines | scripts/config/confdata.c:976-995 | a blank line stands between the end of a menu and a setting that follows it, and nowhere else |
| MenuLines.LeftAfterKids | scripts/config/confdata.c:983-1002 | a node is left when exactly the nodes below it have been entered since |
| MenuLines.TitlesInOrder | scripts/config/confdata.c:958-1003 | every visible menu and comment has its title exactly once, in source order |
| Escaping.ScanEscaped | scripts/config/confdata.c:649-689 | scanning an escaped string gives the string back, for every string, whatever follows |
| Escaping.EscapeValue | scripts/config/confdata.c:649-689 | both loops: the escaped string, and an allocation of exactly its size |
| Escaping.Unescape | scripts/config/confdata.c:255-270 | the memmove loop ends, fails exactly for an unterminated string, and leaves in the buffer what the text stands for |
| Escaping.DropBackslash | scripts/config/confdata.c:263 | one memmove: the string after it, and the terminators |
| ConfigLines.StringValid | scripts/config/symbol.c:535-576 | the scanning loops accept exactly the decimal and hexadecimal numbers |
| ConfigLines.PrintSymbol | scripts/config/confdata.c:691-719 | the line for a symbol, bool n as a comment; reading it restores the value in any configuration |
| ConfigLines.LineRestores | scripts/config/confdata.c:438-507 | reading the line written for any bool, tristate, string, int or hex value restores that value and its flag, and nothing else |
| ConfigLines.Configuration.SetSymVal | scripts/config/confdata.c:226-287 | what each kind of text does to a symbol of each type |
| ConfigLines.Configuration.ReadLine | scripts/config/confdata.c:438-507 | the parser that cuts the line in its buffer does what the function on text does; for a last line "#" it does what that function does with the text an earlier line left behind |
| ConfigReading.LinesAppend | scripts/config/confdata.c:308-339 | cutting complete lines and the text after them is cutting both |
| ConfigReading.LinesPrefixed | scripts/config/confdata.c:308-339 | what is put before a text goes into its first line |
| ConfigReading.SilentIff | scripts/config/confdata.c:438-507 | lines change no configuration if and only if each of them alone sets nothing |
| ConfigReading.LineReader.AddByte | scripts/config/confdata.c:288-306 | the byte is in the buffer, which may be a larger one, behind what was there |
| ConfigReading.LineReader.GetLine | scripts/config/confdata.c:308-339 | the next line of the text is in the buffer with a terminator, whatever its length; none exactly at the end |
| ConfigReading.ReadSimple | scripts/config/confdata.c:344-510 | on any text the loops do what the function on the cut lines does to the reset configuration |
| ConfigFile.FileRestores | scripts/config/confdata.c:958-1003 | the text conf_write makes of any finalised menu whose visible prompts are harmless, cut into lines and read, restores exactly the written symbols, and the others are reset |
| ConfigFile.SaveAndLoad | scripts/config/confdata.c:958-1003 | the same for the loops of both programs, one after the other |
| ConfigFile.PromptSilentIff | scripts/config/confdata.c:960-969 | the comment with the prompt of a menu, newlines included, sets nothing if and only if the prompt does not begin like an unset symbol and none of its further lines sets one |
| ConfigFile.PromptMisread | scripts/config/confdata.c:439-446 | a prompt that does: its comment changes a symbol from y to n |
| ConfigFile.NewlineMisread | scripts/config/confdata.c:469-487 | a prompt with a newline and a setting behind it: its comment changes a symbol from n to y |
| ConfigText.SwitchLines | scripts/config/confdata.c:691-719 | the literal lines for y, m and n |
| ConfigText.TextLines | scripts/config/confdata.c:691-719 | and for numbers and strings |
| ConfigText.EscapeGrows | scripts/config/confdata.c:649-689 | each quote and each backslash gets one backslash, nothing else changes |
| ConfigText.MenuTexts | scripts/config/confdata.c:960-995 | the literal text of titles, ends and the heading |
| ConfigText.AssignmentRead | scripts/config/confdata.c:469-487 | an assignment, with or without a carriage return, gives its value to the symbol of that name |
| ConfigText.SwitchRead | scripts/config/confdata.c:226-246 | a switch takes y and n, a tristate also m, by the first letter; anything else is ignored |
| ConfigText.UnsetRead | scripts/config/confdata.c:439-468 | the comment "is not set" sets a switch to n, whatever follows |
| ConfigText.StringRead | scripts/config/confdata.c:255-277 | a string is what its quotes enclose, whatever follows; without an opening quote it is ignored |
| ConfigText.NumberRead | scripts/config/confdata.c:278-286 | a number is taken if it is valid and ignored otherwise |
| ConfigText.OtherRead | scripts/config/confdata.c:438-507 | any other line sets nothing |
| ConfigText.IntIff | scripts/config/symbol.c:545-558 | the ints are exactly the decimal texts of numbers, with a minus or without |
| ConfigText.HexIff | scripts/config/symbol.c:559-570 | the hexes are exactly the hexadecimal digits, with 0x or 0X or without |
| Preprocessing.BudgetEntered | scripts/config/preprocess.c:258-270 | entering a variable spends the budget that, with the length of the text, makes expansion end |
| Preprocessing.ExpandFewer | scripts/config/preprocess.c:251-277 | the counters only guard: an expansion that succeeds gives the same text wherever fewer variables are entered |
| Preprocessing.ExpandLiteral | scripts/config/preprocess.c:498-540 | text without references stands for itself, before anything |
| Preprocessing.SplitJoined | scripts/config/preprocess.c:384-402 | splitting a clause gives back the parts it was joined from |
| Preprocessing.ClauseIsJoined | scripts/config/preprocess.c:474-481 | every clause that a parenthesis closes is joined from such parts |
| Preprocessing.ClauseExpands | scripts/config/preprocess.c:346-442 | a clause of any parts is an argument if it is its number, and otherwise the variable, function or environment variable its expanded parts name, or nothing; more than sixteen parts are an error |
| Preprocessing.ReferenceExpands | scripts/config/preprocess.c:458-491 | a reference anywhere in a text stands for the value of its clause, and the rest follows |
| Preprocessing.NameExpands | scripts/config/preprocess.c:346-491 | $(NAME) is the variable, else the function, else the environment, else nothing |
| Preprocessing.SelfReferenceFails | scripts/config/preprocess.c:260-262 | a variable that refers to itself ends in the error |
| MacroCalls.TokenExpands | scripts/config/preprocess.c:562-578 | a token goes on over letters, digits and _-./ and ends before anything else |
| MacroCalls.DollarStays | scripts/config/preprocess.c:461-470 | a dollar without a parenthesis stands for itself |
| MacroCalls.UnterminatedFails | scripts/config/preprocess.c:472-485 | a reference that nothing closes is an error |
| MacroCalls.NumberOfDec | scripts/config/preprocess.c:364-368 | what the text of a number counts as: itself within 64 bits, with a sign or blanks before it |
| MacroCalls.ArgumentExpands | scripts/config/preprocess.c:364-368 | $(1), $(2) and so on are the arguments |
| MacroCalls.CallExpands | scripts/config/preprocess.c:404-442 | up to sixteen literal parts are a name and its arguments, more are an error |
| MacroCalls.BuiltIns | scripts/config/preprocess.c:112-199 | error-if fails exactly for y; warning-if and info stand for nothing, shell, filename and lineno for their results |
| MacroCalls.ArityChecked | scripts/config/preprocess.c:202-224 | another number of arguments is an error; a name that is no function is the environment variable, without arguments, or nothing |
| MacroCalls.SimpleVariable | scripts/config/preprocess.c:251-277 | a variable that is not recursive stands for its value unless it is entered already, with arguments more than a thousand times |
| MacroCalls.FunctionCalled | scripts/config/preprocess.c:268-271 | a function defined as its k-th argument stands for it when called |
| MacroCalls.SelfCallFails | scripts/config/preprocess.c:260-266 | a function defined as a call of itself is entered until the limit and ends in the error |
| Expanding.FindClosing | scripts/config/preprocess.c:474-481 | the loop stops at the parenthesis that closes the reference |
| Expanding.SplitClause | scripts/config/preprocess.c:384-402 | the loop splits at the commas outside of parentheses, and refuses more than sixteen parts |
| Expanding.Preprocessor.VariableExpand | scripts/config/preprocess.c:251-277 | the expansion the counters on entry allow; on a normal return every exp_count is as before |
| Expanding.Preprocessor.EvalClause | scripts/config/preprocess.c:346-442 | the same for a clause |
| Expanding.Preprocessor.ExpandDollar | scripts/config/preprocess.c:456-491 | the same for a reference, and where the scan goes on |
| Expanding.Preprocessor.ExpandString | scripts/config/preprocess.c:498-540 | the same for a string or a token: it ends, with a result or the error |
| Hashing.InputEnds | scripts/mkhash.c:700-728 | the first read of no bytes ends the file |
| Hashing.PaddedParts | scripts/mkhash.c:574-599 | a padded message is its whole blocks and one or two last blocks |
| Sha256Constants.RoundConstants | scripts/mkhash.c:462-479 | K[t] is the first 32 bits of the fractional part of the cube root of the t-th prime |
| Sha256Constants.InitialWords | scripts/mkhash.c:610-617 | the initial state is the same of the square roots of the first eight |
| Sha256Constants.PrimesListed | scripts/mkhash.c:462-479 | the numbers taken for that are primes, in increasing order |
| Sha256Example.DigestOfAbc | scripts/mkhash.c:459-675 | the digest of "abc" is the published one |
| Sha256.RoundInPlace | scripts/mkhash.c:490-501 | a round on registers rotated by i places is a round of the standard on working variables |
| Sha256.ExtendSchedule | scripts/mkhash.c:504-505 | sixteen words in place are the next sixteen of the message schedule |
| Sha256.Transform | scripts/mkhash.c:459-563 | the compression of section 6.2.2 of FIPS 180-4 |
| Sha256.Be64Enc | scripts/mkhash.c:110-116 | the length in two halves is its 64-bit big-endian encoding |
| Sha256.Be32Dec | scripts/mkhash.c:120-133 | two 16-bit halves are the big-endian word |
| Sha256.EncodeVector | scripts/mkhash.c:425-431 | a vector of words as big-endian bytes |
| Sha256.PaddedBlocks | scripts/mkhash.c:574-599 | what the buffer holds when the last block or two are mixed in is the padding of section 5.1.1 |
| Sha256.Context.constructor | scripts/mkhash.c:603-618 | the state of the empty message |
| Sha256.Context.Update | scripts/mkhash.c:622-658 | any chunk appends its bytes to the message |
| Sha256.Context.Pad | scripts/mkhash.c:574-599 | the state after the padded message |
| Sha256.Context.Final | scripts/mkhash.c:665-675 | the digest of the standard for all bytes given, and a cleared context |
| Sha256.HashFile | scripts/mkhash.c:715-728 | however reads cut the file, the digest is that of its bytes |
| Md5Example.DigestOfAbc | scripts/mkhash.c:151-396 | the digest of "abc" is the one of appendix A.5 of RFC 1321 |
| Md5.MacrosAre | scripts/mkhash.c:151-156 | the macros F, G, H, H2 and I are the functions of section 3.4 of RFC 1321 |
| Md5.RowsRight | scripts/mkhash.c:211-281 | each of the 64 steps uses the standard's function, word, constant and shift |
| Md5.Step | scripts/mkhash.c:160-163 | one step is one operation of the standard |
| Md5.Steps | scripts/mkhash.c:211-281 | the 64 steps in order are the four rounds |
| Md5.Counted | scripts/mkhash.c:316-319 | with its carry test, hi * 2^29 + lo stays the byte count modulo 2^61, for any size |
| Md5.LengthBytes | scripts/mkhash.c:366-374 | the two words appended are the bit count modulo 2^64, little-endian |
| Md5.Context.Body | scripts/mkhash.c:189-297 | any whole number of blocks is mixed in |
| Md5.Context.Update | scripts/mkhash.c:311-343 | any chunk appends its bytes to the message |
| Md5.Context.Pad | scripts/mkhash.c:346-376 | the state after the message padded as in sections 3.1 and 3.2 |
| Md5.Context.End | scripts/mkhash.c:346-396 | the digest of the standard for all bytes given, and a cleared context |
| Md5.HashFile | scripts/mkhash.c:700-713 | however reads cut the file, the digest is that of its bytes |
| Padding.AlignModulo | tools/padjffs2/src/padjffs2.c:45 | ALIGN on a long length is the right alignment modulo 2^32 |
| Padding.EndsIff | tools/padjffs2/src/padjffs2.c:77-126 | the loop ends if and only if the mask is a multiple of 1024 |
| Padding.CommandMaskHigh | tools/padjffs2/src/padjffs2.c:195-200 | every command line gives such a mask |
| Padding.CommandBoundaries | tools/padjffs2/src/padjffs2.c:195-200 | the boundaries of a command line with block sizes are the length rounded up to each of them, without, to 4, 8, 64 and 128 kilobytes |
| Padding.MarksExact | tools/padjffs2/src/padjffs2.c:77-126 | below 2^32 the markers are exactly at the length rounded up to each block size in the mask |
| Padding.FitsMarks | tools/padjffs2/src/padjffs2.c:77-126 | below 2^32 each bit of the mask gets a marker at a multiple of its power of two |
| Padding.MarkedIff | tools/padjffs2/src/padjffs2.c:77-126 | that happens if and only if the length can be rounded up to the largest block within 32 bits or is a multiple of it |
| Padding.EndOfRange | tools/padjffs2/src/padjffs2.c:77-126 | a failing input: one below 2^32 the only marker for 4096-byte blocks is not at a multiple of 4096 |
| Padding.EmptyMask | tools/padjffs2/src/padjffs2.c:77 | an empty mask leaves the image as it is |
| Padding.PaddedFile | tools/padjffs2/src/padjffs2.c:77-126 | the image stays a prefix, the markers follow in order without overlap, each at its offset, counted with the extra offset, every other byte behind the image is 0xff and the file ends with its last marker; the offsets are those of MarksExact |
| Padding.PadImage | tools/padjffs2/src/padjffs2.c:47-136 | the loops write exactly that file |
| Padding.FindBit | tools/padjffs2/src/padjffs2.c:87-91 | the lowest bit of the mask from bit 10 on |
| Padding.ClearBits | tools/padjffs2/src/padjffs2.c:95-99 | the bits whose power of two divides the length are cleared |

## Left out

- Choices: choice symbols and their values in evaluation, cycle checking and reading; E_LIST and E_RANGE nodes.
- Values of string, int and hex symbols in `sym_calc_value`, ranges, and their calculation through defaults.
- The order of texts and numbers other than tristate values in comparisons is any function of the two texts shown (`other`, `texts`).
- MODULES is settled before evaluation: its own calculation, and the flags SYMBOL_CHANGED and SYMBOL_DEF_AUTO, are not modelled.
- `expr_trans_compare` with m, which its AND and OR cases do not implement.
- Sharing of expression nodes between trees, and malloc and free: nodes taken over are just no longer reachable.
- Evaluation.SymbolTable.CalcValue: bool and tristate symbols that are no choices; the string, int, hex and choice cases are not modelled.
- Evaluation.SymbolTable.CalcVisibility: the part for choice values is not modelled.
- Evaluation.SymbolTable.ClearAllValid: the recalculation of modules_sym that follows is not modelled, since MODULES is settled.
- Evaluation.SymbolTable.SetTristateValue: the part for choice values and the recalculation of modules_sym are not modelled.
- Rearrangement.ExprEqDecidesRearrangement: requires operands other than y and n; which expressions with such operands are decided rightly is not characterised, only that all three parts of the claim can fail.
- Evaluation.SymbolTable: the symbols' fields are records in one map, not separate objects, so aliasing between symbols is by name only.
- Menus.MenuTable: menu nodes are numbers and their pointers three maps; whether an item is absorbed is any relation of two nodes; modules Conditions and Submenus say which. Building select and imply conditions, choice values and warnings in `menu_finalize` is not modelled.
- Menus.MenuTable.EndMenu: requires an open menu, as the grammar guarantees: menu_end_menu stands only behind the menu_add_menu of the same entry (scripts/config/parser.y:242-350). At the root the code would make its current menu NULL.
- MenuWalk.WriteConfig: which nodes are visible and which symbols are written are fixed during the walk; opening, renaming and comparing files are not modelled.
- ConfigLines.Configuration.ReadLine: only S_DEF_USER; for a last line that is just "#" the buffer must hold a terminated string behind it, since the code compares what is there. Warnings and conf_set_changed are not modelled, and the prefix is always CONFIG_.
- ConfigLines.Configuration.SetSymVal: the cases of S_DEF_AUTO, warnings and choice values are not modelled.
- ConfigReading.ReadSimple: requires a text without NUL whose last line is not "#" without a newline. Finding and opening the file, and a failing realloc, are not modelled.
- ConfigFile.FileRestores: requires that the heading and the prompts of visible menus and comments are harmless, the exact condition of PromptSilentIff, and string values without newlines.
- Submenus.FinalizeMenu: what came through a symbol without a prompt is not claimed not to belong, only shown that it need not. Conditions are on bool and tristate symbols and in normal form.
- Preprocessing.Expand: the results of filename, lineno and shell are parameters; the list of referenced environment variables and `variable_add` are not modelled.
- Expanding.SplitClause: the parts are stretches of the clause instead of NUL-terminated pieces of a copy.
- Sha256.HashFile: hexadecimal output, and opening files. A length beyond 2^64 bits is taken modulo 2^64, which the standard does not define.
- Sha256Constants.PrimesListed: the primes are increasing; that none up to 311 is missing from the list is left to the reader.
- Md5Example.DigestOfAbc: the 64 words of MD5 are tied down by this digest, not derived from sines.
- Md5.Step: on little-endian hosts the words are loaded directly; the model is the portable branch.
- Padding.PadImage: requires a mask that is a multiple of 1024, as main always builds it (CommandMaskHigh) and without which the loop does not end (EndsIff); I/O errors and 32-bit ssize_t are not modelled.
- User interfaces, the generated lexer and parser tables, glob and environment access, firmware header tools.
