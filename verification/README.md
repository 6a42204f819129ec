# Kconfig simplifier and menu builder, spin barrier, 64-bit division, macro expander, JTAG chain

This project models the five pieces of logic in the repository that are hardest to get right,
and proves what each is for, on all inputs, runs and reachable states.

* **Kconfig expressions** (`core/tools/kconfig/expr.c`). Expressions over n < m < y are
  simplified in place before the menu is built. The semantics is `Expr.Value`
  (expr_calc_value); what sym_calc_value finds out about symbols is an arbitrary valuation,
  of which `Expr.Sound` asks only that y, m and n mean themselves, that a quoted constant is n
  and spells its name, that a boolean is never m, and that a boolean or tristate spells its own
  value; `Expr.SoundExtends` shows that every such choice of tristate values is met. Each
  simplification is a function (`ExprEq`, `ExprDups`, `ExprTransform`) whose meaning is proved, and
  of which `ExprEqComplete`, `ExprDupsComplete` and `ExprSigns` say that it leaves nothing undone.
  Each routine that overwrites its argument is also a method, on linked nodes that are
  overwritten, relinked, allocated and freed, proved to compute that function: `ExprNodes` has
  those that recurse over the tree, `ExprInPlace` those that assign through addresses of fields
  (`ExprSlots`), with expr_eliminate_dups1 called on the same address twice.
  What deduplication keeps, and what the menu builder takes from it, is proved for expressions
  in which no tristate equals a quoted constant it is tested against (`ExprDupsProofs.Apart`).
  `ExprDupsProofs.EliminateDupsExact` says when that is so whatever the configuration: exactly
  when none of the constants reads as a number of 0, 1 or 2.
* **The menu tree** (`menu.c`, `confdata.c`). `MenuTree` relinks real `list`, `next` and
  `parent` fields as menu_finalize does; `Menu` says on plain trees what comes out, and
  `MenuMeaning` what the conditions in it mean; `SubmenuTests` tells the tests of automatic
  submenus by what occurs in the conditions; `MenuWalk` is the non-recursive walk of conf_write
  over the result, and `MenuText` says what is written.
* **The barrier** (`riscv-tests-am/benchmarks/common/util.h`). `Barrier` is a transition system
  with one step per access to shared memory, for any number of threads, interleavings and rounds.
* **64-bit division** (`abstract-machine/klib/src/int64.c`). `Int64` follows the nine shape cases,
  the normalising shifts and the branchless loop on 32-bit halves; `CBits` gives C's word
  operators bit by bit.
* **The macro expander** (`preprocess.c`) and **the JTAG daisy chain** (`rbb_daisychain.py`).
  `Macro` says what a string expands to or which error it ends with, `MacroExpander` is the code with its
  loops and counters, and `MacroLaws` says what each kind of reference stands for. `DaisyChain` compares running a batch through one TAP after another
  with stepping all TAPs together, and `DaisyRegisters` with one long shift register.

A function is the specification of the method that has the source's loops and updates; what
the source promises is proved about the function, and the method's contract carries it over.

## Where the code and its comments disagree

The model follows the code.

* expr_join_and turns `a='b' && a!='c'` into `a='b'` for different constants b and c. That is
  wrong for a tristate `a` that is m, with `m` and `"1"`: both compare equal to it, as numbers.
  `ExprDupsProofs.JoinAndSound` has the exact condition for one join, `JoinAndCounterexample` the
  case, `EliminateDupsExact` the exact condition for deduplication as a whole.
* expr_eq is documented to compare sets of operands. It matches them one to one: without y and
  n among the operands it compares multisets, exactly (`ExprEqOrder.EqualExactly`), so
  repetition matters (`RepetitionMatters`). With y or n it is not even transitive
  (`EqualNotTransitive`), and the order of the operands can matter (`OrderCanMatter`); exactly
  then (`TransitiveExactly`, `OrderExactly`).
* The superset test of menu_finalize reads a negation as "is not". With a negated m an entry
  can pass and be put below a symbol although it is available where the symbol is n and hidden
  (`ExprTransform.SupersetCounterexample`, `Menu.BelongsCounterexample`); exactly when a symbol
  that can be m is negated (`ExprTransform.SupersetExact`, `Menu.BelongsExact`).
* expr_trans_compare asked for m returns the && or || itself (`ExprTransform.TransCompareMod`), and
  for a negation the opposite of the answer (`TransCompareModOperand`). menu.c only asks for n.
* expr_transform leaves NOT above any symbol other than y, m and n, quoted constants included
  (`ExprTransform.NegatedConstantStays`); `TransformNotOnDeclared` says exactly when.
* The comment in expr_join_and says `(a!='m') && (a!='n') -> (a='m')`; the code gives `a='y'`,
  which is right.
* The daisy chain's comment says that TDO is read before every scan; it is read after it. For
  TAPs that shift on the edges of TCK that makes no difference (`DaisyRegisters.ChainIsOneRegister`);
  for devices that shift on every scan command the chain is one cell shorter at each boundary
  (`TriggeredChain`, `TriggeredExactly`).
* __divdi3 wraps for -2^63 / -1, and only there. __moddi3 is right even there.

## Model

| member | source | states |
|---|---|---|
| Expr.CompareWithBuiltin | core/tools/kconfig/expr.c:1030-1102 | comparing a boolean or tristate with y, m or n asks exactly for its tristate value, although the code may compare text or numbers |
| Expr.ConstantsMayCoincide | core/tools/kconfig/expr.c:998-1028 | a tristate that is m equals both of the distinct constants m and "1" |
| Expr.CompareWithConstant | core/tools/kconfig/expr.c:998-1102 | a boolean or tristate equals a constant exactly when the constant reads as its value: y, m or n, or a number of 0, 1 or 2 |
| Expr.SoundExtends | core/tools/kconfig/symbol.c:325-361 | what is assumed of symbols can be met: any tristate values with y, m, n and constants as they are and no boolean at m go with some strings |
| Expr.TextualConstantsDiffer | core/tools/kconfig/expr.c:1068-1083 | a tristate equals no two constants that are y, m, n or text that is no number |
| Decimals.DecimalScans | core/tools/kconfig/expr.c:998-1028 | strtol reads a number in decimal back as that number, to its end |
| ExprNumbers.IntegersCompare | core/tools/kconfig/expr.c:1068-1102 | symbols of type int with numbers in decimal are compared as numbers, not as text, by each of the six relations |
| ExprNumbers.TextsCompare | core/tools/kconfig/expr.c:1073-1102 | symbols of type string are compared as text, also where both spell numbers |
| ExprEq.EliminateYnSound | core/tools/kconfig/expr.c:316-397 | expr_eliminate_yn keeps the value under every valuation |
| ExprEq.EliminateYnShrinks | core/tools/kconfig/expr.c:316-397 | outside negations it leaves no y or n operand, changes nothing if there was none, and shrinks the tree otherwise |
| ExprEq.Cancel | core/tools/kconfig/expr.c:150-190 | cancelling never enlarges either side and keeps their top operators, so the mutual recursion with expr_eq terminates |
| ExprEqProofs.EqualSound | core/tools/kconfig/expr.c:252-303 | expressions that compare equal have the same value under every valuation |
| ExprEqProofs.EqualReflexive | core/tools/kconfig/expr.c:252-303 | every expression compares equal to itself, through copying, cancelling and collapsing |
| ExprEqOrder.EqualExactly | core/tools/kconfig/expr.c:243-303 | without y and n among the operands at any level, two && or two \|\| expressions compare equal if and only if each operand occurs as often on one side as on the other, in whatever order and parentheses, operands being compared the same way |
| ExprEqOrder.EqualSymmetric | core/tools/kconfig/expr.c:252-303 | there, comparing is symmetric |
| ExprEqOrder.EqualTransitive | core/tools/kconfig/expr.c:252-303 | and transitive |
| ExprEqOrder.EqualUpToOrder | core/tools/kconfig/expr.c:243-303 | the same operands in any order and any parentheses compare equal if comparing these operands is symmetric and transitive |
| ExprEqOrder.EqualNotTransitive | core/tools/kconfig/expr.c:252-303 | with a constant it is not transitive: A && (n \|\| n), B && n and B && (n \|\| n); A \|\| (y && y), B \|\| y and B \|\| (y && y) |
| ExprEqOrder.TransitiveExactly | core/tools/kconfig/expr.c:252-303 | for any set of constants allowed as operands: comparing is transitive on all such expressions if and only if neither y nor n is allowed |
| ExprEqOrder.OrderExactly | core/tools/kconfig/expr.c:243-303 | and then only do expressions with the same operands always compare equal, whatever their order and parentheses |
| ExprEqOrder.OrderCanMatter | core/tools/kconfig/expr.c:243-303 | negations of these, joined by \|\| in two orders, do not compare equal |
| ExprEqOrder.RowsCount | core/tools/kconfig/expr.c:150-190 | where comparing is symmetric and transitive, cancelling spends both sides exactly when they have the same operands equally often, leaves nothing that equals anything on the other side, and keeps constants |
| ExprEqOrder.RepetitionMatters | core/tools/kconfig/expr.c:243-303 | A && A && B does not compare equal to A && B: operands are matched one to one, not as a set |
| ExprEqProofs.CancelIsRows | core/tools/kconfig/expr.c:150-190 | the double recursion of __expr_eliminate_eq is two nested walks over the operands of one level, parentheses being irrelevant |
| ExprEqProofs.CancelFactor | core/tools/kconfig/expr.c:150-190 | each valuation has one value c that both sides lost: old e1 = c op new e1 and old e2 = c op new e2 |
| ExprEqProofs.EliminateEqFactor | core/tools/kconfig/expr.c:221-241 | the same for expr_eliminate_eq as a whole, over its two passes and constant elimination |
| ExprEqProofs.ResidueYes | core/tools/kconfig/expr.c:221-241 | if y is left of the second expression, it is at least the first under every valuation |
| ExprEqComplete.NothingCommonLeft | core/tools/kconfig/expr.c:150-241 | without y and n among the operands, after both passes no operand left of the one expression equals one left of the other, at the level of the operator of either, also where the two operators differ |
| ExprDups.PassShrinks | core/tools/kconfig/expr.c:664-686 | a pass that joins something makes the expression strictly smaller once constants are eliminated, so the loop ends |
| ExprDupsProofs.JoinOrSound | core/tools/kconfig/expr.c:431-493 | what expr_join_or returns is the maximum of its operands |
| ExprDupsProofs.JoinAndSound | core/tools/kconfig/expr.c:495-587 | what expr_join_and returns is the minimum of its operands if and only if it did not take two constants apart that the symbol equals both |
| ExprDupsProofs.JoinAndCounterexample | core/tools/kconfig/expr.c:539-553 | under some valuation a=m && a!="1", joined to a=m, is y where the original is n |
| ExprDupsProofs.EliminateDupsSound | core/tools/kconfig/expr.c:664-686 | deduplication keeps the value under every valuation in which no tristate equals a quoted constant that the expression tests it against, and keeps that condition |
| ExprDupsProofs.EliminateDupsExact | core/tools/kconfig/expr.c:664-686 | for any set of quoted constants: deduplication keeps the value of every expression that tests tristates against these only, under every valuation, if and only if none of them reads as a number of 0, 1 or 2 |
| ExprDupsProofs.PassLevelZero | core/tools/kconfig/expr.c:596-651 | walking a tree against itself joins nothing exactly when no two operands at any level can be joined, and then changes nothing |
| ExprDupsProofs.EliminateDupsIrreducible | core/tools/kconfig/expr.c:664-686 | on exit nothing can be joined at any level |
| ExprDupsProofs.EliminateDupsNoEqual | core/tools/kconfig/expr.c:653-686 | on exit no two operands of the top operator compare equal, in either order |
| ExprDupsProofs.EliminateDupsIdempotent | core/tools/kconfig/expr.c:664-686 | deduplicating twice is deduplicating once |
| ExprDupsComplete.JoinAndComplete | core/tools/kconfig/expr.c:495-587 | when expr_join_and must join, by meaning: two operands out of a, a=t and a!=t, t one of y, m and n, are joined if some such operand has the value of their conjunction under every valuation and that is not always n; for a tristate a always, for a boolean where one of the two is a itself |
| ExprDupsComplete.ReplaceableIsMet | core/tools/kconfig/expr.c:523-527 | that applies to A and A=y, for one, which A=y can replace |
| ExprDupsComplete.JoinConstantsComplete | core/tools/kconfig/expr.c:539-553 | an equality and an inequality of a tristate with any two constants, quoted or not, are joined |
| ExprDupsComplete.JoinOrComplete | core/tools/kconfig/expr.c:431-493 | two equalities of a tristate with different ones of y, m and n are joined, and so are a boolean and its negation, in either order |
| ExprDupsComplete.EliminateDupsLean | core/tools/kconfig/expr.c:664-686 | after deduplication no two operands, at any level, are of the kinds that must be joined, or compare equal |
| ExprInPlace.EliminateDups1 | core/tools/kconfig/expr.c:596-651 | called on two addresses in one tree of nodes, possibly the same, it compares exactly the operands below the one with those below the other, in order, changes nothing else, and counts the joins; every node is still in the tree or was freed, never both |
| ExprInPlace.SameNode | core/tools/kconfig/expr.c:617-618 | comparing the nodes at two addresses tells whether the addresses are the same, because nothing is shared |
| ExprInPlace.EliminateDuplicates | core/tools/kconfig/expr.c:664-686 | the loop over passes turns the nodes into the deduplicated expression, which has no two operands left, at any level, that must be joined; it loses no node and restores the global counter |
| ExprInPlace.CancelAt | core/tools/kconfig/expr.c:150-190 | in place, at two addresses in the nodes of two expressions: both become what cancelling makes of them, the rest stays, and no node is shared between them |
| ExprInPlace.EliminateCommon | core/tools/kconfig/expr.c:221-241 | both expressions become the residues |
| ExprInPlace.CompareExprs | core/tools/kconfig/expr.c:252-303 | comparison by cancelling in copies answers what expr_eq specifies, terminates, leaves the operands alone and restores the global counter |
| ExprSlots.StoreAt | core/tools/kconfig/expr.c:627-648 | assigning through an address changes the expression at that place only; what was there is no longer part of it |
| ExprNodes.EliminateConstants | core/tools/kconfig/expr.c:316-397 | overwriting nodes with their operands computes constant elimination; the top node stays, and every node is either in the result or freed, never both |
| ExprNodes.TransformTree | core/tools/kconfig/expr.c:694-849 | the in-place transformation, which reuses, allocates and frees nodes and transforms again what De Morgan's step rebuilt, computes the specified expression, loses no node and frees none that is still in use |
| ExprNodes.TransBoolTree | core/tools/kconfig/expr.c:402-426 | in place, on the same set of nodes |
| ExprNodes.RewriteModules | core/tools/kconfig/menu.c:82-105 | in place, new nodes going above each m |
| ExprTransform.TransformSound | core/tools/kconfig/expr.c:694-849 | expr_transform keeps the value under every valuation |
| ExprTransform.TransformNormal | core/tools/kconfig/expr.c:694-849 | in the result NOT sits only on symbols other than y, m and n, and no boolean is compared with y, m or n |
| ExprTransform.TransformNotOnDeclared | core/tools/kconfig/expr.c:694-849 | in the result every NOT sits on a declared symbol if and only if no quoted constant was an operand under an odd number of negations |
| ExprTransform.NegatedConstantStays | core/tools/kconfig/expr.c:812-845 | !"foo" is such an input, and is left as it is |
| ExprTransform.TransformFixpoints | core/tools/kconfig/expr.c:694-849 | exactly the normal forms are left unchanged, so a second transformation changes nothing |
| ExprSigns.TransformIsNegations | core/tools/kconfig/expr.c:694-849 | expr_transform, which rebuilds and transforms again, comes to one walk that carries a sign down: it exchanges && and \|\| under a negation, turns comparisons round, and decides or drops comparisons of booleans with y, m and n |
| ExprTransform.TransCompareTests | core/tools/kconfig/expr.c:922-985 | for y and n and any logical expression, the exact test the result makes |
| ExprTransform.TransCompareSound | core/tools/kconfig/expr.c:907-985 | the result is y or n and says whether the expression has the value y, or n, as long as nothing that is m is negated |
| ExprTransform.TransCompareNegation | core/tools/kconfig/expr.c:953-954 | for a negation that proviso is exact: it is right if and only if the operand is not m |
| ExprTransform.TransCompareExact | core/tools/kconfig/expr.c:907-985 | for any set of symbols: it is right on all logical expressions that negate these symbols only, under all valuations, if and only if none of them can be m |
| ExprSigns.TransCompareIsAsked | core/tools/kconfig/expr.c:922-985 | asked for y or n and transformed, an expression becomes itself with =y, or !=n, asked of each operand that is no comparison, under the sign that the question has |
| ExprTransform.TransCompareMod | core/tools/kconfig/expr.c:932-952 | asked for m, the && and \|\| cases return the expression itself, which is wrong where both operands are y |
| ExprTransform.TransCompareModOperand | core/tools/kconfig/expr.c:953-980 | asked for m, it is right on symbols and comparisons, and gives exactly the opposite on their negations |
| ExprTransform.TransBoolSound | core/tools/kconfig/expr.c:402-426 | the value changes only through a tristate compared != n that is m |
| ExprTransform.TransBoolExact | core/tools/kconfig/expr.c:413-421 | for one comparison, exactly then |
| ExprTransform.TransBoolExactly | core/tools/kconfig/expr.c:402-426 | for any set of symbols compared != n: all such expressions keep their value under all valuations if and only if no tristate is among them |
| ExprTransform.TransBoolMeaning | core/tools/kconfig/expr.c:399-426 | in every case the value is the one with A!=n read as A for tristates A |
| ExprTransform.TransBoolVisible | core/tools/kconfig/expr.c:402-426 | without negations a value only drops from y to m: what was visible stays visible |
| ExprTransform.RewriteMSound | core/tools/kconfig/menu.c:78-105 | the value is the one with every m outside a comparison limited by MODULES; with modules nothing changes |
| SubmenuTests.ContainsExactly | core/tools/kconfig/expr.c:851-877 | an expression contains a symbol if and only if putting another symbol, whichever, in its place changes it |
| ExprTransform.ContainsComplete | core/tools/kconfig/expr.c:851-877 | the value of an expression that does not contain a symbol does not depend on it |
| SubmenuTests.DependsExactly | core/tools/kconfig/expr.c:879-906 | an expression depends on a symbol if and only if one operand of the conjunction it is, in any parentheses, is the symbol itself or asks it =y, =m or !=n |
| ExprTransform.DependsSound | core/tools/kconfig/expr.c:879-906 | an expression that depends on a symbol is n wherever the symbol is |
| ExprTransform.SupersetReads | core/tools/kconfig/menu.c:456-490 | the superset test, through comparison, transformation, deduplication and cancelling: where the symbol's prompt reads as n, so does an entry that passes, with negations read as "is not", if no tristate equals a quoted constant it is tested against |
| SubmenuTests.SupersetOfMore | core/tools/kconfig/menu.c:469-490 | the superset test passes what it is for: the base condition with more in front of it, if no two operands are left to join and none is y or n |
| SubmenuTests.SupersetOfNothing | core/tools/kconfig/menu.c:456-490 | without a base condition every entry passes |
| SubmenuTests.DocumentedSuperset | core/tools/kconfig/menu.c:472-480 | '(sym \|\| Q) && R' with the base condition R passes, mentions sym, and does not depend on it |
| ExprTransform.SupersetSound | core/tools/kconfig/menu.c:471-490 | where, besides, nothing that is m is negated, an entry that passes is available only where the symbol's prompt is |
| ExprTransform.SupersetExact | core/tools/kconfig/menu.c:456-490 | for any set of symbols: on all logical conditions that negate these symbols only, under all valuations in which no tristate equals a quoted constant it is tested against, what passes is available only where the prompt is, if and only if none of the symbols can be m |
| ExprTransform.SupersetCounterexample | core/tools/kconfig/menu.c:462-490 | with the prompt condition A=n, the condition !A && (C \|\| Q) mentions C, does not depend on it and passes; with A at m, C at n and Q at y it is m where C and the prompt condition are n |
| Menu.FinalizeKeepsOrder | core/tools/kconfig/menu.c:306-585 | the preorder sequence of all entries is the same before and after: none is lost, duplicated or moved |
| Menu.CallsInOrder | core/tools/kconfig/menu.c:427-496 | the calls of menu_finalize, which MenuTree.FinalizeEntry records, are in the order of the final tree |
| Menu.CallsOncePerEntry | core/tools/kconfig/menu.c:427-496 | finalizing a whole tree calls it on each entry exactly once, each before those below it |
| Menu.SubmenuMaximal | core/tools/kconfig/menu.c:461-502 | an automatic submenu takes only entries that pass the three tests and stops only at one that does not |
| Menu.SubmenuMentions | core/tools/kconfig/menu.c:464-502 | every entry taken has a condition, its prompt's if it has a prompt, in which the symbol occurs, and the entry that ends the submenu has none that needs the symbol |
| Menu.BelongsMentions | core/tools/kconfig/menu.c:463-466 | an entry that belongs below a symbol has a condition in which the symbol occurs |
| Menu.BelongsIfNeeded | core/tools/kconfig/menu.c:467-469 | an entry belongs there if one operand of its condition is the symbol, or asks it =y, =m or !=n |
| Menu.BelongsIfMore | core/tools/kconfig/menu.c:471-490 | and if its condition adds one that mentions the symbol in front of the condition of the symbol's own prompt, with nothing to join and no y or n |
| Menu.BelongsUnconditioned | core/tools/kconfig/menu.c:456-490 | where the symbol's prompt has no condition, an entry belongs there exactly if the symbol occurs in its condition |
| Menu.FinalizeFlattens | core/tools/kconfig/menu.c:547-584 | afterwards every entry with entries below it has a prompt, and that has a text, at any depth |
| Menu.FlattenSpreads | core/tools/kconfig/menu.c:547-584 | the loop that moves lists up while it follows them makes one level: an entry whose prompt has a text keeps its list, any other is followed by it, and so on down |
| Menu.FinalizeSpreads | core/tools/kconfig/menu.c:306-584 | that level, of the list gathered before, is what a finalized entry has below it |
| Menu.UnderSound | core/tools/kconfig/menu.c:356-359 | a condition passed through rewrite_m, expr_transform, expr_alloc_and and expr_eliminate_dups is the minimum of the parent's and its own, with m limited by MODULES |
| Menu.InheritMeaning | core/tools/kconfig/menu.c:351-422 | the value of an entry's dependency and of its prompt's condition after its parent's have been passed on, in every case: for the prompt of a symbol that is not tristate, A!=n counts as A for tristates A |
| Menu.FinalizeBelow | core/tools/kconfig/menu.c:306-585 | restructuring puts nothing below an entry's list that is available more widely than that list was, if no choice symbol in it is higher than that |
| Menu.FinalizedInherits | core/tools/kconfig/menu.c:306-585 | whatever ends up below an entry, at any depth, is available at most as far as that entry, if choice symbols below it are no higher |
| MenuMeaning.FinalizeKeepsMeaning | core/tools/kconfig/menu.c:306-585 | in the whole tree, however entries are moved, and in their original order: every entry ends up available exactly as far as its own dependencies and its original parent are, m being limited by MODULES and a choice passing on the value of its symbol; and the prompt of an entry that has no symbol, or a tristate one, is shown exactly as far as the entry is available and its own condition holds |
| Menu.BelongsSound | core/tools/kconfig/menu.c:462-490 | an entry put below a symbol is unavailable where the symbol is n and its prompt hidden, if all operands of the two conditions are boolean or tristate and neither negates anything that is m |
| Menu.BelongsExact | core/tools/kconfig/menu.c:462-490 | for any set of symbols: this holds of all entries whose conditions, with such operands, negate these symbols only, under all valuations, if and only if none of the symbols can be m |
| Menu.BelongsCounterexample | core/tools/kconfig/menu.c:462-490 | an entry that needs !A && (C \|\| Q) is put below a symbol C with the prompt condition A=n, and is m where both C and that condition are n |
| Menu.FitIsMet | core/tools/kconfig/menu.c:306-502 | what these results assume is met, for any value of a tristate, by a tree with a choice, text constants and an automatic submenu |
| MenuTree.FinalizeEntry | core/tools/kconfig/menu.c:306-585 | relinking list, next and parent in place turns the linked tree into the specified one, made of the same entries, with every parent link right and no entry linked twice, by exactly the specified calls of itself; below the entry only entries whose prompt has a text have entries below them, and those keep the list they had |
| MenuTree.TakeSubmenu | core/tools/kconfig/menu.c:456-502 | the entries taken become the list below p with p as parent, p goes on after them, both lists are as specified, and the symbol occurs in the condition of each entry taken |
| MenuTree.FlattenEntry | core/tools/kconfig/menu.c:575-584 | the list below an entry becomes the list behind it, with the right parents |
| MenuWalk.WrittenOnce | core/tools/kconfig/confdata.c:868-912 | each symbol that is to be written is written exactly once however many entries it has, and no other is |
| MenuText.ValuesInOrder | core/tools/kconfig/confdata.c:868-912 | the values written are those of the symbols to write that are no choice, each at its first entry, in the order of the entries |
| MenuText.MarksAreOutline | core/tools/kconfig/confdata.c:868-912 | between the values, each visible entry without a symbol has its heading before the text of the entries below it and, if there are any, its end after it, whatever symbols are written |
| MenuWalk.ConfWrite | core/tools/kconfig/confdata.c:868-912 | the walk along list, next and parent terminates, visits the entries below the root exactly in preorder, and writes the text of the recursive definition |
| MenuWalk.FinalizeAndWrite | core/tools/kconfig/confdata.c:868-912 | on the tree menu_finalize leaves behind, the walk visits each entry there was before once, in the original order, and menu_finalize was called once for each |
| Barrier.NextKeepsInv | riscv-tests-am/benchmarks/common/util.h:60-78 | every step of any thread keeps the invariant of the protocol |
| Barrier.BarrierSafety | riscv-tests-am/benchmarks/common/util.h:60-78 | in every reachable state, no thread has left its k-th call before all threads have begun theirs |
| Barrier.RoundsTogether | riscv-tests-am/benchmarks/common/util.h:60-78 | completed calls differ by at most one between threads |
| Barrier.CountBounded | riscv-tests-am/benchmarks/common/util.h:69-72 | count stays in 0..ncores, and is ncores only while some thread is about to reset it |
| Barrier.OneResetPerRound | riscv-tests-am/benchmarks/common/util.h:69-73 | one thread per round takes the reset branch, in its call of that round, and never two at a time |
| Barrier.BarrierProgress | riscv-tests-am/benchmarks/common/util.h:68-75 | while all threads are inside, one of them can do more than spin |
| Barrier.StepsFromStart | riscv-tests-am/benchmarks/common/util.h:68-75 | k rounds of n threads take at most 6kn steps that are not spins |
| Barrier.NoUsefulStepMeansDone | riscv-tests-am/benchmarks/common/util.h:68-75 | when only spinning is left, every thread has returned from its k-th call: no deadlock |
| Barrier.Shared.Step | riscv-tests-am/benchmarks/common/util.h:60-78 | the accesses to the shared variables are the steps of the transition system, so after each of them no thread has completed more calls than any other has begun |
| Barrier.Shared.StepAll | riscv-tests-am/benchmarks/common/util.h:60-78 | the same after any schedule of accesses, from the initial values on |
| Int64.Clzsi2 | abstract-machine/klib/src/int64.c:626-655 | 2^(31-r) <= a < 2^(32-r) |
| Int64.Ctzsi2 | abstract-machine/klib/src/int64.c:661-695 | the r low bits are 0 and the next is 1 |
| Int64.Clzdi2 | abstract-machine/klib/src/int64.c:711-717 | the same for 64 bits |
| Int64.Ctzdi2 | abstract-machine/klib/src/int64.c:702-709 | the same for 64 bits |
| Int64.NormaliseWide | abstract-machine/klib/src/int64.c:491-497 | the difference of the leading zeros gives r < d before the loop, or shows that the quotient is 0; a divisor above 2^63 leaves one step |
| Int64.NormaliseNarrow | abstract-machine/klib/src/int64.c:531-535 | the same for a one-word divisor, with 2 <= sr <= 63 |
| Int64.NarrowShift | abstract-machine/klib/src/int64.c:499-506 | the four half-word shifts split the number at bit k with nothing lost |
| Int64.SignMaskExact | abstract-machine/klib/src/int64.c:612-612 | the sign of d - r - 1 tells r >= d if and only if the difference fits a signed 64-bit word |
| Int64.ReduceStep | abstract-machine/klib/src/int64.c:605-614 | in every iteration the mask is all ones exactly when r >= d, the shifted r is below 2^64, and the subtraction keeps the invariant |
| Int64.DivideStep | abstract-machine/klib/src/int64.c:598-615 | one whole iteration on the halves keeps the invariant for one bit less |
| Int64.DivideLoop | abstract-machine/klib/src/int64.c:597-619 | from any set-up with r < d the loop and the last shift give quotient and remainder |
| Int64.Udivmoddi4 | abstract-machine/klib/src/int64.c:412-620 | a = q*b + rem and rem < b, for all a and all b other than 0, in every case |
| Int64.DivisionUnique | abstract-machine/klib/src/int64.c:356-390 | truncated quotient and remainder are the only ones that fit the law of division |
| Int64.DivisionLaw | abstract-machine/klib/src/int64.c:356-390 | a = quotient*b + remainder, the remainder smaller than b in magnitude and with the sign of a |
| Int64.Divdi3 | abstract-machine/klib/src/int64.c:355-365 | the quotient truncated toward zero if and only if this is not -2^63 / -1, which gives -2^63 |
| Int64.Moddi3 | abstract-machine/klib/src/int64.c:379-390 | the remainder with the dividend's sign, without exception |
| Int64.Divmoddi4 | abstract-machine/klib/src/int64.c:369-375 | quotient as __divdi3, and the remainder right even where that wraps |
| Macro.EnterShrinks | core/tools/kconfig/preprocess.c:260-267 | each nested expansion uses up part of the finite budget of the counters, and none exceeds 1001: expansion always ends |
| MacroProofs.SplitLaw | core/tools/kconfig/preprocess.c:384-399 | a clause is cut at its top-level commas exactly: the pieces joined give it back, each is balanced, and none can be cut further |
| MacroProofs.ClauseBalanced | core/tools/kconfig/preprocess.c:469-487 | what lies between matching parentheses is balanced |
| MacroProofs.NeverUnterminated | core/tools/kconfig/preprocess.c:469-487 | if text and variables have their references closed, no expansion, however nested, reports a missing parenthesis |
| MacroProofs.OkOnlyIfClosed | core/tools/kconfig/preprocess.c:469-487 | text with an open reference never expands |
| MacroProofs.ExpandConcat | core/tools/kconfig/preprocess.c:495-537 | expansion goes through concatenation, errors included, if the references in the first part are closed and the second does not start with a parenthesis that could complete a dollar sign |
| MacroProofs.PlainText | core/tools/kconfig/preprocess.c:495-537 | text without a dollar sign stands for itself |
| MacroLaws.LoneDollar | core/tools/kconfig/preprocess.c:455-465 | a dollar sign that no parenthesis follows stands for itself |
| MacroLaws.ReferenceLaw | core/tools/kconfig/preprocess.c:453-488 | "$(" and ")" around any balanced clause expand to what the clause evaluates to |
| MacroLaws.DecimalIsNumber | core/tools/kconfig/preprocess.c:362-364 | a clause that is a number in decimal, up to the largest unsigned long, is read as that number |
| MacroLaws.ArgumentLaw | core/tools/kconfig/preprocess.c:357-366 | $(k) is the k-th argument, for every k from 1 to the number of arguments |
| MacroLaws.SplitJoined | core/tools/kconfig/preprocess.c:384-399 | pieces joined with commas are cut into these pieces again |
| MacroLaws.CallLaw | core/tools/kconfig/preprocess.c:368-439 | the name and at most 15 arguments are expanded one by one, with the arguments of the caller, before the name is looked up |
| MacroLaws.TooManyLaw | core/tools/kconfig/preprocess.c:389-399 | 16 arguments and more end the program |
| MacroLaws.UserCallLaw | core/tools/kconfig/preprocess.c:251-277 | $(f,a1,...,an) with plain text and a recursive variable f expands to the value of f, expanded with the arguments a1 to an while the counter of f is one higher |
| MacroLaws.PassesArgument | core/tools/kconfig/preprocess.c:346-439 | a function that is nothing but $(k) returns its k-th argument |
| MacroLaws.SimpleCallLaw | core/tools/kconfig/preprocess.c:269-272 | a simple variable expands to its value as it is |
| MacroLaws.RecursionErrors | core/tools/kconfig/preprocess.c:260-265 | a variable without arguments that is under way is an error, and one with arguments that is under way more than a thousand times |
| MacroLaws.OtherCallLaw | core/tools/kconfig/preprocess.c:190-224 | any other name is a built-in function, which takes exactly its number of arguments, or without arguments an environment variable, or nothing |
| MacroProofs.ExpandFromGuard | core/tools/kconfig/preprocess.c:260-274 | the recursion guard never changes a result: what expands inside other expansions expands to the same outside them |
| MacroExpander.Expander.ExpandText | core/tools/kconfig/preprocess.c:495-537 | the loop with its pending text and output buffer computes the specified expansion, and on success every counter is back where it was |
| MacroExpander.Expander.Tokenize | core/tools/kconfig/preprocess.c:384-399 | the loop with its depth counter cuts the clause as specified |
| MacroExpander.Expander.EvaluateClause | core/tools/kconfig/preprocess.c:346-439 | argument, variable, built-in, environment or nothing, in that order, or the specified error |
| MacroExpander.Expander.VariableExpand | core/tools/kconfig/preprocess.c:251-277 | raises the counter around the expansion and restores it, or reports the specified error |
| DaisyChain.BatchIsLockstep | riscv-tests-am/debug/rbb_daisychain.py:36-61 | running the batch through one TAP after another gives the same states and answers as stepping all TAPs together, each taking as TDI the TDO shown after the same scan |
| DaisyChain.RunAhead | riscv-tests-am/debug/rbb_daisychain.py:38-57 | over any batch the first TAP can be run ahead of all others |
| DaisyChain.BatchesCompose | riscv-tests-am/debug/rbb_daisychain.py:36-61 | how the client's bytes are cut into batches makes no difference |
| DaisyChain.OneAnswerPerRead | riscv-tests-am/debug/rbb_daisychain.py:36-61 | the client gets one answer for each read it sent, whatever the chain |
| DaisyRegisters.WithTdiBits | riscv-tests-am/debug/rbb_daisychain.py:41-46 | a scan command goes on with the same TCK and TMS bits and the previous TAP's TDO as its TDI bit |
| DaisyRegisters.ChainIsOneRegister | riscv-tests-am/debug/rbb_daisychain.py:36-61 | shift registers that shift on the rising edge of TCK, in the states of a common TMS state machine of any kind, and change TDO on the falling one: the chain behaves as one such register with all their cells, for any commands, with the same answers |
| DaisyRegisters.ScanThrough | riscv-tests-am/debug/rbb_daisychain.py:36-61 | scanning as many bits as all of them have cells returns what the whole chain held, from its far end on, and leaves the bits in it |
| DaisyRegisters.TriggeredChain | riscv-tests-am/debug/rbb_daisychain.py:36-61 | registers that shift on every scan command, without edges: the chain is one such register too, but the last cell of a TAP and the first of the next are one cell, because a TAP is read after it has shifted |
| DaisyRegisters.TriggeredExactly | riscv-tests-am/debug/rbb_daisychain.py:36-61 | for any lengths: such registers answer as one of their total length, whatever they hold and whatever is sent, if and only if there is only one of them |
| DaisyChain.Chain.TapBatch | riscv-tests-am/debug/rbb_daisychain.py:39-56 | builds the specified batch for a TAP, and the assertion that no value is left over holds |
| DaisyChain.Chain.Execute | riscv-tests-am/debug/rbb_daisychain.py:36-61 | any number of TAPs, any commands: the TAPs and the result end up as in lockstep |
| DaisyRegisters.ExecuteRegisters | riscv-tests-am/debug/rbb_daisychain.py:36-61 | Chain.execute on TAPs that are clocked shift registers has the states and the result of one long register |
| DaisyChain.Tap.Execute | riscv-tests-am/debug/rbb_daisychain.py:15-26 | however the answers are cut into portions, the loop ends with one answer for each read, in order, and with nothing left on the connection |

## Left out

- ExprDupsProofs.EliminateDupsSound: asks that no tristate equals a quoted constant that the expression tests it against; where one does, JoinAndSound says exactly which join goes wrong, and EliminateDupsExact that no weaker condition on the constants in use is enough.
- ExprEqOrder.EqualExactly: expressions with y or n among the operands of some level are left out, because there expr_eq is not an equivalence (TransitiveExactly); EqualUpToOrder covers those whose operands it does compare symmetrically and transitively.
- ExprTransform.TransCompareSound: for m only symbols, comparisons and their negations have their meaning stated, because the code builds no result for && and \|\|.
- ExprTransform.SupersetSound: asks that nothing that is m is negated, that all operands are boolean or tristate, and that no tristate equals a quoted constant it is tested against; SupersetExact says which negated symbols are the trouble.
- ExprInPlace.EliminateDups1: an address is the path to it, and expr_join_or and expr_join_and read their operands as values and return a new tree; that no node is lost is stated of the caller's nodes.
- ExprNodes.TransformTree: the two members of a union are separate fields, and what is freed is a set of nodes; that malloc succeeds is assumed.
- ExprEq.Cancel: absent (null) expressions are not part of the simplifier model; where the code allows them (dependencies, prompts) they are options that count as y.
- Expressions of the kinds E_LIST, E_RANGE and E_NONE: expr_eq never calls them equal and the simplifier gets none in a meaningful way.
- The value of a symbol: sym_calc_value and sym_get_string_value are an arbitrary valuation, modules_sym an arbitrary symbol; how symbol.c comes to the values is not part of this model.
- Int overflow of trans_count and count: both are unbounded here.
- Menu.Finalize: symbol types count as set before; the conditions added to choice values, select and imply, rev_dep and dir_dep, and properties other than the prompt are not modelled. None of them relinks an entry.
- Menu.FinalizedInherits: asks that choices below the entry are no higher than the entry, which the visibility of a choice ensures at run time, and that no tristate equals a quoted constant it is tested against.
- Menu.UnderSound: asks the latter of the two conditions too, as do Menu.InheritMeaning, Menu.FinalizeBelow and Menu.BelongsSound.
- Menu.FinalizeBelow: asks the former too.
- SubmenuTests.SupersetOfMore: that the test passes is stated for a base condition that ends the entry's and for operands of which no two can be joined. Menu.BelongsIfMore asks the same.
- MenuMeaning.FinalizeKeepsMeaning: asks that no tristate equals a quoted constant it is tested against; the prompt of a symbol that is not tristate has its value stated in Menu.InheritMeaning.
- Menu.BelongsSound: asks that both conditions have boolean and tristate operands only and negate nothing that is m; BelongsExact says which negated symbols are the trouble.
- MenuWalk.ConfWrite: blank lines, the file header and the escaping of values are left out; whether an entry is visible and whether a symbol is to be written are parameters, as is the state they are computed from.
- conf_write_defconfig: the same walk without the ends of menus.
- Barrier: sequentially consistent memory and exactly ncores callers are assumed; the fences are not modelled.
- Int64.Udivmoddi4: division by zero, for which C divides by zero too.
- Macro.EvalClause: a clause with exactly 16 separators writes past the end of an array in C; here it is an error of its own.
- Macro.CallBuiltin: the bodies of the built-in functions, the shell and the environment are parameters that do not change during an expansion; definition of variables is left out.
- DaisyChain.Tap.Execute: a TAP is an arbitrary state machine that answers each read with one byte; a connection that takes a batch only in part, or is closed, is left out.
- The user interfaces, the simulator glue, the devices, the OpenOCD and gdb scripts, the matmul and vvadd kernels: wrappers over other programs, or repetition.
