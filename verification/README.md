# Buildroot support tools and the Linux 0.11 kernel: a verified model

This project models parts of two programs of the repository and proves what they are for.

**The Kconfig engine** (`000-rootfs/support/kconfig`). Dependency expressions have three values,
n=0, m=1 and y=2. `KconfigExpr` gives them their meaning; `KconfigSimplify`, `KconfigDups` and
`KconfigTransform` model the rewriting of `expr.c` (constant elimination, elimination of common
operands, joining of duplicates through two pointers into one tree, negation pushing) and prove that
it keeps values and terminates; `KconfigEquality` says what the comparison of expressions means and
`KconfigSuperset` the test that compares an item's condition with that of the symbol above it.
`KconfigPropagate` puts them together into the way a menu entry inherits dependencies, and
`KconfigInherit` does so for the whole tree. `KconfigDeps` is the search for recursive dependencies
and `KconfigRank` what it is worth to the evaluator, `KconfigValues` the evaluator that remembers
what it computed, `KconfigChoice` a choice and its members evaluated in either order, `KconfigShape`
and `KconfigMenu` the reshaping of the sibling-linked menu tree while it is walked, `KconfigWalk`
the stackless walk that writes the result, and `KconfigStrings` the printer and the reader of string
values.

**The Linux 0.11 kernel** (`004-kernel/linux-0.11`). `BufferQueues`, `BufferCache` and
`BufferProtocol` are the buffer cache: its lists, its functions, and all interleavings of processes
that sleep inside them; `BufferAnswers` says what a process gets, and `BufferSafety` when references
keep their blocks. `MinixVolume` and `MinixFs` are the block allocator, the block tree and file
reading, writing and truncation as a refinement of byte arrays. `LinuxFiles` counts descriptors over
open, close, dup, dup2, pipe, fork and exit. `LinuxPipe` is the pipe's ring buffer and all
interleavings of its readers and writers. `LinuxExec` is the argument area and the stack a new
program starts with.

Code that changes state in place is modelled as classes and loops over arrays and pointer fields,
proved against functions whose properties are the lemmas beside them. Pointers into tables (buffer
heads, menu entries, file-table entries) are numbers. Expression trees have no sharing and are
values; where two pointers walk one tree they are kept, as paths.

## Assumptions

- An assignment gives y, m and n their own values and never makes a boolean symbol m
  (`KconfigExpr.Good`); `KconfigValues.PlainIsGood` shows that computed values are of this kind.
- `KconfigExpr.WellFormed`: a boolean or tristate symbol is compared by = or != only with y, m or n,
  and no operand of unorderable type stands under an inequality. Lemmas with concrete inputs show
  that the joining and the negation rules are wrong without this.
- `KconfigValues.Acyclic`: nothing depends on itself. `KconfigChoice.Gated`: a member's prompts are
  never above the choice, which `KconfigPropagate.Propagate`, with the choice as the parent, makes
  of them.
- The block tree is modelled one call at a time and with devices that do not fail.
- Insertion into a bucket, at `004-kernel/linux-0.11/fs/buffer.c:229`, is modelled with the test for an
  empty bucket that its own comment asks for.
- For exec, the strings fit the argument area. The source's own test for this,
  `p-len < 0` at `004-kernel/linux-0.11/fs/exec.c:164`, is on unsigned numbers and can never be true.

## What turned out to be false

- `expr_eq` is not transitive (`KconfigSimplify.ExprEqNotTransitive`). It is an equivalence on
  expressions without constant operands inside operands (`KconfigEquality.ExprEqIsEquivalence`),
  where it is equality up to order and grouping (`KconfigEquality.ExprEqIsSameForm`).
- Joining `a = b` with `a != c` is wrong for different constants that stand for the same tristate
  value, and for no others (`KconfigDups.JoinAndNeedsTriConstants` gives inputs,
  `JoinOfDifferentConstants` the exact condition on the constants).
- Turning a condition into a test for "not n" is wrong for a negated tristate: `!A` becomes
  `A = n`, although it is m when A is (`KconfigSuperset.NegationAgainstN` and `NegatedTristate`
  have the exact conditions).
- Setting a symbol to the value it already has can change its value
  (`KconfigValues.SameValueCanBeLost`, with the exact condition in `SameValueIsRealised`).
- The number of recursive dependencies counted by the caller is always zero, although something is
  reported whenever there is one (`KconfigDeps.CheckAll`; `KconfigDeps.RingIsNotCounted` has an
  example).
- A search that reports nothing does not mean that nothing depends on itself: implied values are not
  followed (`KconfigRank.ImplyIsNotSeen`; `KconfigRank.NothingReported` has what is missing).
- A value can be refused although setting it would give it (`KconfigValues.RangeIsExact` has the two
  cases).
- A string with a newline is not read back (`KconfigStrings.RoundTrip`, exactly then, for symbols
  whose printed name does not start with #).
- `b_count` is one byte: 256 references to a buffer look like none, and the buffer can be taken
  from under them. `BufferSafety.SomeRunSnatches` is a run in which that happens,
  `BufferSafety.StepKeyed` says which steps do it, and `BufferSafety.RunKeyed` and `RunSafe` that
  it cannot happen while the processes together may hold fewer than 256 references to a block.
- A script started with an empty argument list loses its path to the environment
  (`LinuxExec.EmptyArgvLosesTheScript`, exactly then by `ScriptArgcIsRight`).
- `dup2` of a descriptor onto itself closes it (`LinuxFiles.Kernel.Dup2`).

## Model

| member | source | states |
|---|---|---|
| `KconfigExpr.TestAgainstConstant` | 000-rootfs/support/kconfig/expr.c:1045-1104 | comparing a boolean or tristate symbol with y, m or n, which the source does on their texts, is comparing their values |
| `KconfigExpr.ValueIsLocal` | 000-rootfs/support/kconfig/expr.c:1026-1104 | an expression's value depends on the symbols that stand in it and on no others |
| `KconfigExpr.NumbersCompare` | 000-rootfs/support/kconfig/expr.c:1056-1104 | symbols that both parse as numbers, and are not both strings, are ordered as numbers, for each of the six comparisons |
| `KconfigExpr.TextsCompare` | 000-rootfs/support/kconfig/expr.c:1056-1104 | strings, and symbols of which one is no number, are ordered by their texts in dictionary order |
| `KconfigSimplify.EliminateYnShrinks` | 000-rootfs/support/kconfig/expr.c:308-389 | no `&&` or `\|\|` keeps a constant y or n operand; the tree never grows, and stays the same size exactly when there was nothing to eliminate |
| `KconfigSimplify.EliminateYnKeepsValue` | 000-rootfs/support/kconfig/expr.c:308-389 | y/n elimination keeps the three-valued value under every assignment |
| `KconfigSimplify.EliminateCommonSplits` | 000-rootfs/support/kconfig/expr.c:149-218 | what the pairwise walk removes from the two trees at a level is worth the same on both sides, and putting it back gives both originals |
| `KconfigSimplify.EliminateEqReflectsOrder` | 000-rootfs/support/kconfig/expr.c:220-249 | if the rewritten left is at most the rewritten right under an assignment, the original left is at most the original right |
| `KconfigSimplify.ExprEqSound` | 000-rootfs/support/kconfig/expr.c:251-295 | expressions that compare equal have the same value under every assignment |
| `KconfigSimplify.ExprEqReflexive` | 000-rootfs/support/kconfig/expr.c:251-295 | every expression compares equal to itself: in comparing an `&&` or `\|\|` with its copy, every operand finds its twin although earlier ones were replaced on the way |
| `KconfigSimplify.ExprEqNotTransitive` | 000-rootfs/support/kconfig/expr.c:251-295 | in general the comparison is not an equivalence: three expressions over two symbols with y operands inside, the first equal to the second and the second to the third, but not the first to the third |
| `KconfigEquality.ExprEqIsSameForm` | 000-rootfs/support/kconfig/expr.c:251-295 | for expressions in which no operand of an `&&` or `\|\|` has a constant y or n operand of its own, the in-place pairing succeeds exactly when both have the same operands at every level, in any order and grouping, as often each |
| `KconfigEquality.ExprEqIsEquivalence` | 000-rootfs/support/kconfig/expr.c:251-295 | on those expressions the comparison is reflexive, symmetric and transitive |
| `KconfigSuperset.AgainstNIsTest` | 000-rootfs/support/kconfig/expr.c:914-955 | turning a condition into a test against n gives y or n, and y for "not n" exactly when the condition is above n, if only boolean and tristate symbols stand for conditions and nothing that can be m is negated |
| `KconfigSuperset.NegationAgainstN` | 000-rootfs/support/kconfig/expr.c:945-946 | the branch for a negation is right under an assignment exactly when what is negated is not m there |
| `KconfigSuperset.NegatedTristate` | 000-rootfs/support/kconfig/expr.c:945-946 | for a negated symbol it is right under every assignment exactly when the symbol is boolean |
| `KconfigSuperset.IsSuperset` | 000-rootfs/support/kconfig/menu.c:448-483 | when the test puts an item below a symbol, then wherever the symbol's condition is n the item's is n, under every assignment |
| `KconfigDups.JoinKeepsValue` | 000-rootfs/support/kconfig/expr.c:423-579 | every rule for joining two operands gives an expression worth exactly the two together, on well-formed operands |
| `KconfigDups.JoinShape` | 000-rootfs/support/kconfig/expr.c:423-579 | a join is well-formed, is no node of the level it happens at, and together with the constant that takes the other place is no larger than the two operands |
| `KconfigDups.JoinAndNeedsTriConstants` | 000-rootfs/support/kconfig/expr.c:535-544 | the rule for two different constants is wrong for constants that compare as numbers: `a = "1"` and `a != "0x1"` on a tristate that is m, `a = y` and `a != "2"` on one that is y |
| `KconfigDups.EqualsDenoted` | 000-rootfs/support/kconfig/expr.c:1045-1104 | a tristate symbol equals a constant exactly when it has the one value the constant stands for, by name or as a number, if any |
| `KconfigDups.JoinOfDifferentConstants` | 000-rootfs/support/kconfig/expr.c:535-544 | that rule, in either order of the operands, is right under every assignment to symbols exactly when the two constants do not stand for the same tristate value; y, m and n never do |
| `KconfigDups.SameSkeleton` | 000-rootfs/support/kconfig/expr.c:588-643 | as long as a level keeps its nodes, every pointer into it stays valid and leads to a subtree of the same shape, whatever is written elsewhere |
| `KconfigDups.JoinedAtCorrect` | 000-rootfs/support/kconfig/expr.c:619-640 | replacing one operand by the join and the other by the neutral constant, through two pointers into one tree, keeps the value |
| `KconfigDups.WalkKeepsValue` | 000-rootfs/support/kconfig/expr.c:588-643 | the whole walk of one tree through two pointers that start out equal keeps the value and the form of the expression |
| `KconfigDups.WalkProgress` | 000-rootfs/support/kconfig/expr.c:588-643 | a walk that joined anything leaves a constant for y/n elimination, which then makes the tree smaller; one that joined nothing left the tree as it was |
| `KconfigDups.WalkSettles` | 000-rootfs/support/kconfig/expr.c:588-643 | after a walk without a join no two operands of a level can be joined, at this level or at any below |
| `KconfigDups.EliminateDups` | 000-rootfs/support/kconfig/expr.c:656-678 | the loop terminates; the result has the original value under every assignment and is no larger; at every level of it no two operands are equal, and of none of the joining rules are both operands left |
| `KconfigTransform.TransformKeepsValue` | 000-rootfs/support/kconfig/expr.c:686-841 | the transformation keeps the value under every assignment, and keeps expressions well-formed |
| `KconfigTransform.NegatedKeepsValue` | 000-rootfs/support/kconfig/expr.c:762-785 | replacing a negated comparison by the opposite one is right exactly when the operands can be ordered, or the comparison is an (in)equality |
| `KconfigTransform.TransformNormalizes` | 000-rootfs/support/kconfig/expr.c:686-841 | anywhere in the result only symbols other than y, m and n are negated, and no boolean symbol is tested for being y, m or n |
| `KconfigTransform.TransformFixpoint` | 000-rootfs/support/kconfig/expr.c:686-841 | an expression is left alone exactly when it is already normal; transforming twice is transforming once |
| `KconfigTransform.DeMorganWeight` | 000-rootfs/support/kconfig/expr.c:786-806 | the re-run after De Morgan's law works on something smaller, so the recursion ends |
| `KconfigTransform.TransformNeedsOrder` | 000-rootfs/support/kconfig/expr.c:1076-1080 | for operands that cannot be ordered an inequality and its negation are both n, so the transformation changes the value |
| `KconfigPropagate.RewriteMValue` | 000-rootfs/support/kconfig/menu.c:81-104 | after the rewriting, m is worth n wherever modules are off and is m still where they are on; comparisons are not affected |
| `KconfigPropagate.Propagate` | 000-rootfs/support/kconfig/menu.c:348-352 | an entry's final dependency is worth the smaller of its parent's and its own rewritten one, under every assignment, with nothing left to join |
| `KconfigInherit.Descend` | 000-rootfs/support/kconfig/menu.c:304-424 | over the whole tree, level by level: every entry's dependency, and a menu's prompt condition, becomes worth the smaller of what it inherits and its own rewritten one |
| `KconfigInherit.FinalDependency` | 000-rootfs/support/kconfig/menu.c:328-424 | the dependency any entry ends up with is worth the least of the rewritten conditions of all entries around it, up to the root or to the next choice, which stands in for everything above it |
| `KconfigInherit.ChildDependsOn` | 000-rootfs/support/kconfig/menu.c:328-352 | a child ends up with the smaller of its own rewritten condition and, in a choice, the choice's value, in a menu the prompt condition as it is then, and in any other block the block's dependency as it is then |
| `KconfigInherit.LeastIsMinimum` | 000-rootfs/support/kconfig/menu.c:328-424 | that least value is below none of them and is one of them |
| `KconfigDeps.OrderedIsAcyclic` | 000-rootfs/support/kconfig/symbol.c:1312-1344 | symbols left in an order in which each only leads to earlier ones lie on no cycle |
| `KconfigDeps.DepChecker.CheckDeps` | 000-rootfs/support/kconfig/symbol.c:1312-1344 | the marks stay consistent with the path being walked; a report names a symbol of a real cycle, and without one the symbol is done for good |
| `KconfigDeps.DepChecker.CheckSymDeps` | 000-rootfs/support/kconfig/symbol.c:1241-1273 | reverse dependency, conditions and defaults are all followed, in any order of marks, and choices and selects are passed over |
| `KconfigDeps.DepChecker.CheckExprDeps` | 000-rootfs/support/kconfig/symbol.c:1206-1239 | every symbol that stands in an expression is followed unless a cycle was reported before |
| `KconfigDeps.CheckAll` | 000-rootfs/support/kconfig/zconf.y:554-557 | over all symbols in any order: something is reported if and only if some symbol leads back to itself over symbols that stand in reverse dependencies, conditions and defaults; no symbol is expanded twice, and since the checker returns no symbol at the end of a report the error count stays zero; without a report the symbols were left in an order in which each leads to earlier ones only |
| `KconfigRank.NothingReported` | 000-rootfs/support/kconfig/symbol.c:1241-1273 | after a search without a report that order ranks every symbol above all it is computed from, so that evaluation is well-founded, exactly if it also ranks direct dependencies and implied values, which the search does not follow |
| `KconfigRank.ImplyIsNotSeen` | 000-rootfs/support/kconfig/symbol.c:1241-1273 | two symbols that imply each other: the search sees no cycle, and no order of evaluation exists |
| `KconfigDeps.RingIsNotCounted` | 000-rootfs/support/kconfig/zconf.y:554-559 | two symbols, one selected by the other and the other defaulting to the first: the cycle is reported and the error count is zero |
| `KconfigValues.PlainIsGood` | 000-rootfs/support/kconfig/symbol.c:405-445 | the recursively defined values never make a boolean symbol m, so they are an assignment of the kind expressions are simplified under |
| `KconfigValues.PlainIsValue` | 000-rootfs/support/kconfig/expr.c:1026-1104 | evaluating an expression symbol by symbol gives its value under the assignment of all symbols' values |
| `KconfigValues.ValueIs` | 000-rootfs/support/kconfig/symbol.c:357-498 | under the assignment of all values: visibility is the highest prompt condition, the user's value counts within it, otherwise the earliest default with a condition above n within that condition, or what is implied while the direct dependency is above n; the reverse dependency is a lower bound; a boolean is never m |
| `KconfigValues.Evaluator.CalcValue` | 000-rootfs/support/kconfig/symbol.c:357-498 | with memory of what was computed, and whatever was asked before, the value and the fields of a symbol are those of the plain recursive definition |
| `KconfigValues.Evaluator.CalcVisibility` | 000-rootfs/support/kconfig/symbol.c:209-270 | visibility, direct, reverse and implied dependency are those of the plain definition, although other symbols are computed on the way |
| `KconfigValues.Evaluator.CalcDefault` | 000-rootfs/support/kconfig/symbol.c:115-125 | the first default whose condition is not n gives the value, within its condition |
| `KconfigValues.Evaluator.SetTristateValue` | 000-rootfs/support/kconfig/symbol.c:532-566 | a value is accepted exactly when nothing changes or it is in range; a refused one changes nothing; an accepted different one is what the symbol has when computed again |
| `KconfigValues.AcceptedIsRealised` | 000-rootfs/support/kconfig/symbol.c:511-530 | setting a symbol to a value within its range makes its recursively defined value exactly that |
| `KconfigValues.RangeIsExact` | 000-rootfs/support/kconfig/symbol.c:511-530 | a new value is in range exactly when setting it would give it, but for two cases with a visibility of m: m on a symbol selected to m, and y on one implied to y |
| `KconfigValues.SameValueIsRealised` | 000-rootfs/support/kconfig/symbol.c:532-566 | setting a symbol to the value it has keeps that value unless, and only unless, it is y by default under a visibility of m |
| `KconfigValues.SameValueCanBeLost` | 000-rootfs/support/kconfig/symbol.c:532-566 | such a symbol exists: a tristate that is y by default, with a prompt that depends on m |
| `KconfigChoice.VisibleIsYes` | 000-rootfs/support/kconfig/symbol.c:221-235 | under a choice at y a member is fully visible or not visible |
| `KconfigChoice.ExactlyOneYes` | 000-rootfs/support/kconfig/symbol.c:278-334 | a choice that is to be y ends at y exactly when it has a visible member, and then exactly one of its visible members is y: the one it records |
| `KconfigChoice.VisibleUnderY` | 000-rootfs/support/kconfig/symbol.c:221-241 | under a choice at y a member is visible exactly when a prompt of it is y, or is m and it is no tristate |
| `KconfigChoice.WhoIsYes` | 000-rootfs/support/kconfig/symbol.c:304-334 | under a choice at y a visible member is y exactly when it is the user's pick; or, if that is not visible, the target of the earliest default whose condition is not n and whose target is visible; or, if there is none, the first visible member |
| `KconfigChoice.NobodyRecorded` | 000-rootfs/support/kconfig/symbol.c:405-445 | under a choice at m or n a member has the user's value within its visibility, or what its own defaults give, with m made y for booleans and without modules |
| `KconfigChoice.FirstDefaultFinds` | 000-rootfs/support/kconfig/symbol.c:278-302 | the default search gives a visible member, and nothing only if no member is visible |
| `KconfigChoice.Evaluator.CalcMember` | 000-rootfs/support/kconfig/symbol.c:304-334 | the loops find the user's pick, else a default, else the first visible member; with none the choice drops to n |
| `KconfigChoice.Evaluator.CalcVisibility` | 000-rootfs/support/kconfig/symbol.c:209-241 | a member's visibility is right both from inside the choice's own evaluation and before the choice was evaluated at all |
| `KconfigChoice.Evaluator.CalcChoice` | 000-rootfs/support/kconfig/symbol.c:357-498 | the choice's value and recorded member do not depend on what was evaluated first |
| `KconfigChoice.Evaluator.CalcValue` | 000-rootfs/support/kconfig/symbol.c:405-411 | a member's value does not depend on whether it or the choice was evaluated first |
| `KconfigShape.FinalisedOrder` | 000-rootfs/support/kconfig/menu.c:296-605 | finalising keeps the preorder sequence of the entries: none is lost, doubled or moved |
| `KconfigShape.FinalisedIsFlat` | 000-rootfs/support/kconfig/menu.c:567-576 | below a finalised entry only entries with a prompt have children |
| `KconfigShape.FinalisedKeepsBelow` | 000-rootfs/support/kconfig/menu.c:296-605 | whatever was below an entry with a prompt is below it still |
| `KconfigShape.AbsorbedIsMaximal` | 000-rootfs/support/kconfig/menu.c:454-488 | an automatic submenu takes every following entry up to the first that does not depend on the symbol, and none beyond |
| `KconfigShape.FinalisedTakes` | 000-rootfs/support/kconfig/menu.c:425-494 | an entry with children, or without a symbol, leaves its siblings alone; a symbol without children takes the next sibling if that depends on it, and the first sibling left does not |
| `KconfigShape.SubmenuDepends` | 000-rootfs/support/kconfig/menu.c:454-488 | every entry of an automatic submenu depends on the symbol, before children are pulled up |
| `KconfigMenu.HeadLinks` | 000-rootfs/support/kconfig/menu.c:425-494 | the same about the links of an entry just finalised |
| `KconfigMenu.Tree.Adopt` | 000-rootfs/support/kconfig/menu.c:568-572 | every child gets the new parent and nothing else changes; the last child is found |
| `KconfigMenu.Tree.PullUp` | 000-rootfs/support/kconfig/menu.c:498-577 | the loop that splices children into the very list it follows gives the flattened list, with right parent links |
| `KconfigMenu.Tree.FinalizeChildren` | 000-rootfs/support/kconfig/menu.c:423-424 | the loop over the children, which absorb each other while it runs, finalises each exactly once and in order |
| `KconfigMenu.Tree.AbsorbSiblings` | 000-rootfs/support/kconfig/menu.c:452-494 | the siblings taken over are finalised once each, hang below the symbol with it as parent, and the rest of the list stays linked |
| `KconfigMenu.Tree.Finalize` | 000-rootfs/support/kconfig/menu.c:296-605 | the links afterwards are those of the reshaped tree, links of other entries are untouched, and exactly the entries of the submenu were finalised, in order |
| `KconfigMenu.Tree.FinalizeRoot` | 000-rootfs/support/kconfig/zconf.y:553 | for the whole tree: every entry is finalised exactly once, in preorder, and every parent link names the entry whose child list holds it; afterwards an entry without a prompt has no children, any other keeps its first child, and a symbol that had none has the sibling after it for its first child exactly if that depends on it |
| `KconfigWalk.Climb` | 000-rootfs/support/kconfig/confdata.c:819-824 | the parent links lead to the next entry in preorder, or nowhere when there is none |
| `KconfigWalk.Walk` | 000-rootfs/support/kconfig/confdata.c:792-825 | the walk without a stack visits the entries below the root exactly once each, in preorder |
| `KconfigStrings.CountEscaped` | 000-rootfs/support/kconfig/symbol.c:969-982 | the counting pass reserves exactly the bytes of the escaped string and its NUL |
| `KconfigStrings.WriteEscaped` | 000-rootfs/support/kconfig/symbol.c:984-1002 | the writing pass fills exactly those bytes with the escaped string |
| `KconfigStrings.EscapeStringValue` | 000-rootfs/support/kconfig/symbol.c:962-1003 | the returned buffer is the escaped string and its NUL, with no byte over |
| `KconfigStrings.UnquotedBody` | 000-rootfs/support/kconfig/confdata.c:163-173 | removing escapes undoes adding them, up to the closing quote and whatever follows it |
| `KconfigStrings.UnquotedOpen` | 000-rootfs/support/kconfig/confdata.c:170-174 | escaped text without a closing quote is refused, however it ends |
| `KconfigStrings.DropStep` | 000-rootfs/support/kconfig/confdata.c:168 | moving the rest of the string down over a backslash takes the next character as it is, also at the very end of the string |
| `KconfigStrings.Unescape` | 000-rootfs/support/kconfig/confdata.c:163-174 | the loop in the line buffer gives what reading the string from left to right gives |
| `KconfigStrings.SetStringVal` | 000-rootfs/support/kconfig/confdata.c:160-188 | a value without an opening quote is passed over, one without a closing quote refused, any other stored without its escapes |
| `KconfigStrings.EndValue` | 000-rootfs/support/kconfig/confdata.c:352-357 | the value ends at the newline, or at a carriage return right before it |
| `KconfigStrings.ReadLine` | 000-rootfs/support/kconfig/confdata.c:347-365 | a line sets a symbol exactly when it is no comment, has the prefix (any prefix, empty in this build) and an equals sign; name and value are cut out in place |
| `KconfigStrings.ReadAssignment` | 000-rootfs/support/kconfig/confdata.c:347-373 | taking a line apart and unescaping its value in place gives what the line means |
| `KconfigStrings.RoundTrip` | 000-rootfs/support/kconfig/confdata.c:486-507 | for any prefix, a string is read back from its printed line as it was exactly when it holds no newline and its name does not start a comment; with a newline the line is refused |
| `KconfigStrings.SaveAndLoad` | 000-rootfs/support/kconfig/confdata.c:347-373 | the same for the buffers: what the escaping loop wrote, printed behind the name, read into a line and taken apart in place gives the string back, exactly in those cases |
| `BufferQueues.UnlinkFreeRing` | 004-kernel/linux-0.11/fs/buffer.c:201-208 | taking a buffer out of the circular list leaves the others in order |
| `BufferQueues.UnlinkHashChain` | 004-kernel/linux-0.11/fs/buffer.c:192-200 | taking a buffer out of its bucket leaves the others in order |
| `BufferQueues.LinkFreeRing` | 004-kernel/linux-0.11/fs/buffer.c:214-219 | a buffer put before the head of the circular list is its last |
| `BufferCache.RemoveQueues` | 004-kernel/linux-0.11/fs/buffer.c:190-209 | a buffer comes off the free list and its own bucket, all other lists keep their members and order |
| `BufferCache.InsertQueues` | 004-kernel/linux-0.11/fs/buffer.c:212-230 | a buffer goes to the end of the free list and the head of the bucket of its key, and to no bucket without a device |
| `BufferCache.RekeyQueues` | 004-kernel/linux-0.11/fs/buffer.c:349-359 | changing a buffer's key between removal and insertion keeps every buffer on the free list once and in exactly the bucket of its key |
| `BufferCache.FindCorrect` | 004-kernel/linux-0.11/fs/buffer.c:234-243 | the search gives the buffer of the block, and NULL only when no buffer carries it |
| `BufferCache.PickCorrect` | 004-kernel/linux-0.11/fs/buffer.c:297-326 | the choice is an unused buffer of least badness, and there is none only when every buffer is in use |
| `BufferCache.Buffers.constructor` | 004-kernel/linux-0.11/fs/buffer.c:499-542 | at the start every buffer is free, in order, in no bucket |
| `BufferCache.Buffers.RemoveFromQueues` | 004-kernel/linux-0.11/fs/buffer.c:190-209 | the pointer writes give the specified lists |
| `BufferCache.Buffers.InsertIntoQueues` | 004-kernel/linux-0.11/fs/buffer.c:212-230 | the pointer writes give the specified lists; the old bucket head is only touched if there is one |
| `BufferCache.Buffers.FindBuffer` | 004-kernel/linux-0.11/fs/buffer.c:234-243 | the loop along the bucket finds what the search means |
| `BufferCache.Buffers.PickBuffer` | 004-kernel/linux-0.11/fs/buffer.c:297-319 | one round of the free list finds the choice |
| `BufferCache.Buffers.TakeOver` | 004-kernel/linux-0.11/fs/buffer.c:349-359 | the end of getblk gives the re-keyed cache |
| `BufferProtocol.StepInv` | 004-kernel/linux-0.11/fs/buffer.c:254-372 | no step of any process or device breaks the lists, puts a device's block in two buffers, or makes a count differ from the number of references modulo 256 |
| `BufferProtocol.TakenOverExactly` | 004-kernel/linux-0.11/fs/buffer.c:327-359 | a candidate is taken over exactly when its references are a multiple of 256, it is clean, and the block is still not cached |
| `BufferAnswers.LookupGives` | 004-kernel/linux-0.11/fs/buffer.c:246-326 | a search ends with a counted reference to the buffer of the block; without one get_hash_table gives up, and getblk picks an unused buffer, clean rather than dirty and then unlocked rather than locked, or waits because all are in use |
| `BufferAnswers.PickIsFirst` | 004-kernel/linux-0.11/fs/buffer.c:297-319 | of equally good buffers the one first on the free list is taken |
| `BufferAnswers.CandidateChecked` | 004-kernel/linux-0.11/fs/buffer.c:327-347 | a candidate taken meanwhile, or a block cached meanwhile, sends the process back to the start; a dirty one is written first |
| `BufferAnswers.StepAnswers` | 004-kernel/linux-0.11/fs/buffer.c:254-359 | in any interleaving a process stays with the block it asked for until it holds one more reference, to a buffer that carries that block, and loses none it held; only get_hash_table may come back empty, when no buffer carries the block |
| `BufferProtocol.RekeyedOnlyUnused` | 004-kernel/linux-0.11/fs/buffer.c:287-359 | a step changes a buffer's key only if its number of references is a multiple of 256 |
| `BufferSafety.TakeOverKeyed` | 004-kernel/linux-0.11/fs/buffer.c:349-359 | taking a buffer over leaves every reference on the block it was made for exactly when nobody refers to the buffer, or it carried that very block |
| `BufferSafety.StepKeyed` | 004-kernel/linux-0.11/fs/buffer.c:254-372 | a step takes a block away from a reference exactly when it takes over a clean buffer whose references are a positive multiple of 256 |
| `BufferProtocol.RunInv` | 004-kernel/linux-0.11/fs/buffer.c:190-372 | in every state of every interleaving the lists, the uniqueness of blocks and the counts are right |
| `BufferSafety.StepModest` | 004-kernel/linux-0.11/fs/buffer.c:254-372 | a process that asks for a block only while it holds fewer than k references to it never has more than k, those it is waiting for included |
| `BufferSafety.RunKeyed` | 004-kernel/linux-0.11/fs/buffer.c:254-372 | in every interleaving in which processes keep to such a k, with k times their number below 256, no count wraps and every reference leads to the block it was made for |
| `BufferSafety.RunSafe` | 004-kernel/linux-0.11/fs/buffer.c:266-280 | then the re-check after a wait never fails, two references to one block are to one buffer, and no referenced buffer has a count of zero |
| `BufferSafety.SomeRunSnatches` | 004-kernel/linux-0.11/fs/buffer.c:254-372 | a run from buffer_init, with two buffers and one process that takes 256 references to one block, at whose end the block is gone from under them |
| `MinixFs.FindFirstZero` | 004-kernel/linux-0.11/fs/bitmap.c:51-65 | the word-wise scan gives the first clear bit of a bitmap block, or its length |
| `MinixFs.Minix.NewBlock` | 004-kernel/linux-0.11/fs/bitmap.c:117-160 | a block returned was free, is in the data zone, zeroed and now used; 0 is returned only when the zone is full |
| `MinixFs.Minix.FreeBlock` | 004-kernel/linux-0.11/fs/bitmap.c:70-112 | exactly the bit of the block is cleared |
| `MinixVolume.BlankIsSound` | 004-kernel/linux-0.11/fs/super.c:234-237 | a volume whose only set bit is bit 0 and whose files own nothing satisfies the ownership invariant |
| `MinixVolume.PtrOfAttach` | 004-kernel/linux-0.11/fs/inode.c:100-203 | storing a fresh block's number changes one slot of one file and no other slot of any file, at every level |
| `MinixVolume.AttachSound` | 004-kernel/linux-0.11/fs/inode.c:100-203 | attaching a free, zeroed block keeps ownership: slots hold used blocks of the zone, no block is held twice, every used block is held |
| `MinixVolume.AttachKeepsBytes` | 004-kernel/linux-0.11/fs/bitmap.c:155 | because a new block is zeroed, attaching it changes no byte of any file |
| `MinixVolume.GrownIsPointUpdate` | 004-kernel/linux-0.11/fs/inode.c:206-217 | creating a block leaves the disk block of every other file block, of this and every other file, as it was, and that of an existing one too |
| `MinixVolume.GrownUsesMore` | 004-kernel/linux-0.11/fs/inode.c:206-217 | allocation frees nothing, and every block that becomes used is owned by the file that grew |
| `MinixFs.Minix.FillSlot` | 004-kernel/linux-0.11/fs/inode.c:115-122 | one level of the map: the slot's block, created if asked for; none only when the zone is full |
| `MinixFs.Minix.BlockMap` | 004-kernel/linux-0.11/fs/inode.c:100-203 | lookup changes nothing; creation grows the file by at most the slots on the way to the block asked for, and the number returned is the one then found there |
| `MinixVolume.PtrOfBlock` | 004-kernel/linux-0.11/fs/inode.c:115-203 | the number of a file's block is in the inode for the first seven, in the indirect block for the next 512, and in the block its double indirect block leads to for the rest |
| `MinixVolume.ByteIs` | 004-kernel/linux-0.11/fs/file_dev.c:30-56 | a file's byte is the one the disk holds at that place, found by those numbers, and zero in a hole |
| `MinixFs.Minix.FileRead` | 004-kernel/linux-0.11/fs/file_dev.c:20-63 | reading returns the bytes the disk holds from the position on, zeros for holes, and changes nothing but the position |
| `MinixFs.Minix.WriteChunk` | 004-kernel/linux-0.11/fs/file_dev.c:103-121 | one round replaces exactly its bytes and extends the size to reach them |
| `MinixFs.Minix.FileWrite` | 004-kernel/linux-0.11/fs/file_dev.c:70-133 | a write that returns n replaces exactly those n bytes, the size becomes the larger of the old size and the end, other files are untouched; it is short only when the zone is full |
| `MinixVolume.WroteKeepsZeroTails` | 004-kernel/linux-0.11/fs/file_dev.c:113-117 | bytes beyond the size still read as zero |
| `MinixVolume.BytesOfOverwritten` | 004-kernel/linux-0.11/fs/file_dev.c:118-120 | overwriting part of a data block changes no other byte of any file |
| `MinixVolume.OwnedByParts` | 004-kernel/linux-0.11/fs/truncate.c:60-81 | what truncate goes through is exactly what the inode owns |
| `MinixFs.Minix.FreeInd` | 004-kernel/linux-0.11/fs/truncate.c:13-31 | exactly the blocks under the indirect block, and the block itself, become free |
| `MinixFs.Minix.FreeDind` | 004-kernel/linux-0.11/fs/truncate.c:37-55 | exactly the blocks two levels below, the indirect blocks and the block itself become free |
| `MinixFs.Minix.FreeDirect` | 004-kernel/linux-0.11/fs/truncate.c:67-72 | exactly the direct blocks become free |
| `MinixFs.Minix.Truncate` | 004-kernel/linux-0.11/fs/truncate.c:60-81 | a file or directory gives back exactly what it owned and is empty; any other inode is left alone |
| `MinixVolume.ReleasedSound` | 004-kernel/linux-0.11/fs/truncate.c:60-81 | after that ownership holds, and every other file keeps its map and its bytes |
| `MinixFs.ReadyToFree` | 004-kernel/linux-0.11/fs/truncate.c:13-81 | ownership means that no release on the way is of a block outside the zone or already free |
| `LinuxPipe.TakeStretch` | 004-kernel/linux-0.11/fs/pipe.c:34-48 | moving the tail over a stretch, around the end of the page too, takes exactly the oldest unread bytes |
| `LinuxPipe.PutStretch` | 004-kernel/linux-0.11/fs/pipe.c:81-95 | filling a stretch at the head appends exactly it and overwrites nothing unread |
| `LinuxPipe.Pipe.ReadPipe` | 004-kernel/linux-0.11/fs/pipe.c:15-53 | a reader takes the front of the queue, up to what it wants, in order; it sleeps exactly when it wants more and the writing end is open |
| `LinuxPipe.Pipe.WritePipe` | 004-kernel/linux-0.11/fs/pipe.c:57-100 | a writer appends the next bytes of its buffer, up to the free space; it sleeps, or gets SIGPIPE, exactly when it has more and a reader exists or not |
| `LinuxPipe.Pipe.constructor` | 004-kernel/linux-0.11/fs/inode.c:350-356 | a new pipe is empty with both ends open |
| `LinuxPipe.StepKeepsInv` | 004-kernel/linux-0.11/fs/pipe.c:15-100 | no step of any task loses, doubles or reorders a byte, or leaves a task asleep that could go on |
| `LinuxPipe.ReaderGetsTheNextBytes` | 004-kernel/linux-0.11/fs/pipe.c:15-53 | what a run of a reader delivers are the oldest undelivered bytes; if it returns short, nothing accepted is left |
| `LinuxPipe.WriterAddsItsNextBytes` | 004-kernel/linux-0.11/fs/pipe.c:57-100 | what a run of a writer adds are the next bytes of its own buffer; it stops short only at a full page |
| `LinuxPipe.RunIsAFifo` | 004-kernel/linux-0.11/fs/pipe.c:15-100 | in every interleaving the delivered bytes are a prefix of the accepted ones, what lies between is the queue, at most PAGE_SIZE-1 bytes, and at most one task is asleep |
| `LinuxExec.ArgPages.PushByte` | 004-kernel/linux-0.11/fs/exec.c:174-197 | keeping a page and an offset at hand stores each byte where its flat offset says, across page borders and newly allocated pages |
| `LinuxExec.ArgPages.CopyStrings` | 004-kernel/linux-0.11/fs/exec.c:129-204 | the strings are packed in order right below p and nothing else changes; 0 means no room, no page, or an earlier failure |
| `LinuxExec.StringAt` | 004-kernel/linux-0.11/fs/exec.c:72-80 | the address computed for a string is that of exactly its bytes and its NUL |
| `LinuxExec.FillTable` | 004-kernel/linux-0.11/fs/exec.c:72-81 | the table holds the strings' addresses in order and a null pointer, and nothing outside it is written |
| `LinuxExec.CreateTables` | 004-kernel/linux-0.11/fs/exec.c:50-83 | the stack is aligned and lies below the strings; argc, both table addresses and both tables are right, and no string is touched |
| `LinuxExec.ArgumentsArrive` | 004-kernel/linux-0.11/fs/exec.c:539-540 | for a started program argv[i] and envp[i] address exactly the caller's strings, each table ends in a null pointer and lies below every string |
| `LinuxExec.Start` | 004-kernel/linux-0.11/fs/exec.c:486-493 | exec of a program: that stack for every argument list that fits, or ENOMEM, which means no page was left or the area is full to the last byte |
| `LinuxExec.ReadScript` | 004-kernel/linux-0.11/fs/exec.c:360-384 | interpreter, its name behind the last slash and its one argument are cut from the first line; no line or a blank one gives none |
| `LinuxExec.StartScript` | 004-kernel/linux-0.11/fs/exec.c:405-434 | exec of a script: the strings are interpreter name, optional argument, script path, then the old arguments from index 1 and the environment |
| `LinuxExec.ScriptArgcIsRight` | 004-kernel/linux-0.11/fs/exec.c:405-430 | the count passed on is the length of that list exactly when the caller's argument list was not empty |
| `LinuxExec.EmptyArgvLosesTheScript` | 004-kernel/linux-0.11/fs/exec.c:405-430 | with an empty argument list the script path becomes the first string of the environment |
| `LinuxFiles.Shared` | 004-kernel/linux-0.11/fs/fcntl.c:44-45 | one more descriptor and one more count keep the tables consistent, without wrapping the 16-bit count |
| `LinuxFiles.Closed` | 004-kernel/linux-0.11/fs/open.c:316-322 | one descriptor less and one count less keep the tables consistent; the last one gives the inode back |
| `LinuxFiles.Forked` | 004-kernel/linux-0.11/kernel/fork.c:192-194 | the child's descriptors and the raised counts keep the tables consistent |
| `LinuxFiles.Unreferenced` | 004-kernel/linux-0.11/fs/open.c:235-239 | an entry with no references is in no descriptor of any task |
| `LinuxFiles.RefsBound` | 004-kernel/linux-0.11/include/linux/fs.h:119 | all descriptors of all tasks together never exceed what an f_count can hold |
| `LinuxFiles.Kernel.constructor` | 004-kernel/linux-0.11/kernel/sched.c:85 | at the start, with task 0 alone and an empty file table, the tables are consistent |
| `LinuxFiles.Kernel.OpenBegin` | 004-kernel/linux-0.11/fs/open.c:208-244 | open reserves the lowest free descriptor and an entry nobody refers to; it fails only when one of the tables is full |
| `LinuxFiles.Kernel.OpenFail` | 004-kernel/linux-0.11/fs/open.c:245-270 | a failed open leaves descriptor and entry free again |
| `LinuxFiles.Kernel.OpenDone` | 004-kernel/linux-0.11/fs/open.c:280-285 | a successful open hands exactly one reference of the inode to the entry |
| `LinuxFiles.Kernel.Close` | 004-kernel/linux-0.11/fs/open.c:299-323 | the inode is put back exactly when the last descriptor of its entry is closed; a count of zero is never found |
| `LinuxFiles.Kernel.DupFd` | 004-kernel/linux-0.11/fs/fcntl.c:21-46 | the lowest free descriptor from `arg` on shares the entry; every error code exactly in its case |
| `LinuxFiles.Kernel.Dup2` | 004-kernel/linux-0.11/fs/fcntl.c:52-56 | the descriptor asked for then shares the entry; duplicating a descriptor onto itself closes it and fails |
| `LinuxFiles.Kernel.PipeBegin` | 004-kernel/linux-0.11/fs/pipe.c:106-138 | two unreferenced entries and the two lowest free descriptors are reserved; it fails only for want of two entries or two descriptors, and then changes nothing |
| `LinuxFiles.Kernel.PipeDone` | 004-kernel/linux-0.11/fs/pipe.c:150-157 | each end takes one of the inode's two references |
| `LinuxFiles.Kernel.FindEmptyProcess` | 004-kernel/linux-0.11/kernel/fork.c:213-230 | the search ends with a pid no task has, and with a free slot unless there is none |
| `LinuxFiles.Kernel.CopyProcess` | 004-kernel/linux-0.11/kernel/fork.c:113-210 | the child has the parent's descriptors, counts stay exact and pids unique |
| `LinuxFiles.Kernel.CloseAll` | 004-kernel/linux-0.11/kernel/exit.c:158-160 | exit closes every descriptor of the task and touches no other task |
| `LinuxFiles.Kernel.Release` | 004-kernel/linux-0.11/kernel/exit.c:26-40 | a task slot is freed with no descriptor left behind |

## Left out

- KconfigSuperset.IsSuperset: takes `expr_trans_compare` for the constant n only, the one it is
  called with.
- KconfigDeps.DepChecker.CheckDeps: does not model choices and their members, nor does
  `KconfigDeps.CheckAll`; the graph is that of symbols that are not choices, and
  `sym_check_choice_deps` is left out.
- KconfigDeps.CheckAll: graphs with choices are outside the model.
- KconfigValues.Evaluator.CalcValue: does not model int, hex and string symbols, choices, and the
  warning, write and changed flags.
- KconfigValues.Evaluator.CalcVisibility: does not model members of a choice; module
  `KconfigChoice` does.
- KconfigValues.Evaluator.SetTristateValue: does not model setting a member of a choice.
- KconfigChoice.Evaluator.CalcChoice: the value of the choice before its members are looked at is
  an input; it is computed as for any other symbol.
- KconfigShape.AbsorbedIsMaximal: which entry depends on a symbol is a parameter; of the tests
  behind it `KconfigSuperset.IsSuperset` is modelled, and two searches of the expression are not.
- KconfigInherit.Descend: dependencies are values in a tree of their own, not fields of the linked
  entries of `KconfigMenu`; the conditions of a symbol's properties, and the condition on the
  choice's being y that bool members of a tristate choice get at the end, are not modelled.
- KconfigStrings.ReadAssignment: string symbols only.
- Expression nodes as heap objects, their allocation and freeing: trees without sharing are values.
- The list and range forms of expressions, `expr_trans_bool`, printing.
- Values of int, hex and string symbols, range checks, warnings, and the write and changed flags.
- In menu finalisation, which entries depend on which: the answers are parameters, one for each
  pair, since no pair is asked about twice. Registering choice members, reverse dependencies and
  warnings are not modelled.
- In a choice, the flag that makes members set by a random configuration pull the choice's value
  first, and the clearing of the choice's own user flag, which matters for a later evaluation only.
- Bool, tristate, int and hex lines, comments and unset symbols of the .config reader; its symbol
  table; file handling.
- Reading and writing of disk blocks, failures of devices, inode times and dirty flags, and the
  difference between a cached block and the disk.
- Inside `sync_dev`, the write-back's own use of the cache counts as steps of other processes.
- A page fault while pipe data is copied, at which another task could run.
- `close_on_exec`, the terminal and disk-change parts of open, permissions, path lookup, and the
  counts of the current directory, root and executable.
- Signals, the father's update in exit, waitpid, page tables, segments and registers in fork and exec.
- In exec, reading the file header, its checks, set-user-id, and the lookup of the interpreter.
- MinixFs.Minix.BlockMap: does not model the panic for a block number beyond the tree, which is a
  precondition instead.
- MinixFs.Minix.FreeBlock: does not model the two panics, for a block outside the zone or already
  free, nor the early return when another process holds the buffer; `MinixFs.ReadyToFree` shows
  that truncate never meets the panics.
- LinuxExec.ArgPages.CopyStrings: does not model what happens when the strings do not fit, where
  the source writes outside its page table.
- Front ends, `namei.c`, `super.c`, device drivers, the aufs files, `coretemp.c` and the other
  tools of the repository.
