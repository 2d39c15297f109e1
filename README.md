# Sane if-else inspection, modelled in Dafny

The IntelliJ plugin `intellij-idea-refactoring` has an inspection, `SaneIfElseInspection`.
It reports an `if`/`else` that meets all of these conditions:

- it sits directly in a method body;
- both its branches are braced blocks;
- its then-block has more text lines than its else-block;
- no statement runs after its else-if chain.

The quick fix attached to the report rewrites the code in three steps:

1. It inverts the condition, so the two branches swap.
2. It makes sure that the new then-block ends in `return` or `throw`. In a `void` method it adds
   `return;` before the closing brace; in any other method it stops here.
3. It lifts the statements of the now redundant else-block out, right after the `if`, and
   deletes the else-branch.

The project models both halves on an arena model of the PSI tree, IntelliJ's syntax tree.

- `psi.dfy` (module `Psi`) holds the tree itself. It is a sequence of nodes, each with a kind,
  a parent link and an ordered list of children. Braces, whitespace and comments are children
  like any other element, as `getChildren()` sees them. `WellFormed` says four things:
  - parent and child links agree;
  - every parent has a smaller id than its children, which makes every upward walk terminate;
  - children lists have no duplicates;
  - an `if` has at most two children and a block statement wraps exactly one code block.

  Then come the read-only navigation functions the inspection calls. The four PSI edits it
  uses (`addBefore`, `addAfter`, `addRangeAfter`, `delete`) are pure functions on trees. The
  class `PsiTree` holds the tree as a field and applies those edits in place.
- `inspection.dfy` (module `SaneIfElseInspection`) is the read-only detector:
  - `VisitIfStatement`;
  - the `while (true)` walk of `getNextStatement`, as a method with a loop;
  - the specification function `ChainTop`.
- `quickfix.dfy` (module `SaneIfElseQuickFix`) is the rewriter:
  - the class `SaneIfElseQuickFix` with its bound `if` and method, and the methods `ApplyFix`
    and `UnwrapRedundantElse`, which edit a `PsiTree` in place;
  - the `for` loop that finds the anchor, as the method `TopmostIf`;
  - `FixedTree` and `Unwrapped`, two functions on tree values that specify those methods;
  - the lemmas that say what the rewrite does.

Where the anchor has no parent, the source dereferences null at `parent.addAfter` or
`parent.addRangeAfter`. A statement inside a method always has a parent, so this needs a chain
of `if`s whose top has no parent. The model follows the code: the tree keeps every edit made
before that point, and nothing after it happens.

## Model

| member | source | states |
|---|---|---|
| Psi.ThenBranch | src/main/java/com/linuxgods/kreiger/refactoring/SaneIfElseInspection.java:46 | the then-branch, when present, is a child of the `if` with a larger id |
| Psi.ElseBranch | src/main/java/com/linuxgods/kreiger/refactoring/SaneIfElseInspection.java:47 | the else-branch, when present, is a child of the `if`, distinct from a then-branch that is then also present |
| Psi.CodeBlockOf | src/main/java/com/linuxgods/kreiger/refactoring/SaneIfElseInspection.java:50-51 | a block statement's code block is its child and has the kind of a code block |
| Psi.LastChild | src/main/java/com/linuxgods/kreiger/refactoring/SaneIfElseInspection.java:109 | the last child, when there is one, is a child of the node |
| Psi.NextSiblingOfStatement | src/main/java/com/linuxgods/kreiger/refactoring/SaneIfElseInspection.java:78 | null exactly when no later sibling is a statement; otherwise the first later sibling that is a statement, skipping everything else |
| Psi.LastStatementInBlock | src/main/java/com/linuxgods/kreiger/refactoring/SaneIfElseInspection.java:102 | null exactly when no child of the block is a statement; otherwise a child that is a statement with no statement after it |
| Psi.InsertedAfter | src/main/java/com/linuxgods/kreiger/refactoring/SaneIfElseInspection.java:125 | the children list with the new elements placed after the anchor: the length adds up and no element is lost or invented |
| Psi.Removed | src/main/java/com/linuxgods/kreiger/refactoring/SaneIfElseInspection.java:135 | the children list without the deleted element, one shorter, still free of duplicates |
| Psi.AddedBefore | src/main/java/com/linuxgods/kreiger/refactoring/SaneIfElseInspection.java:108-109 | a fresh leaf is placed in the block right before the anchor child, or at the end when the anchor is null; every other node is unchanged and the tree stays well-formed |
| Psi.MovedRangeAfter | src/main/java/com/linuxgods/kreiger/refactoring/SaneIfElseInspection.java:125 | a run of siblings leaves its parent and is placed, in order, right after the anchor in the target; the moved nodes are re-parented, nothing else changes, kinds are kept and the tree stays well-formed |
| Psi.Deleted | src/main/java/com/linuxgods/kreiger/refactoring/SaneIfElseInspection.java:135 | the element leaves its parent's children and is detached with its subtree intact; only it and its parent change, and the tree stays well-formed |
| Psi.PsiTree.constructor | src/main/java/com/linuxgods/kreiger/refactoring/SaneIfElseInspection.java:97 | the tree the fix runs on is a well-formed tree, held in place so that the edits can change it |
| Psi.PsiTree.AddBefore | src/main/java/com/linuxgods/kreiger/refactoring/SaneIfElseInspection.java:108-109 | the in-place edit equals `AddedBefore` on the old tree, returns the new element's id and keeps the tree valid |
| Psi.PsiTree.AddAfter | src/main/java/com/linuxgods/kreiger/refactoring/SaneIfElseInspection.java:125 | the in-place edit is the one-element `MovedRangeAfter` of the old tree and keeps the tree valid |
| Psi.PsiTree.AddRangeAfter | src/main/java/com/linuxgods/kreiger/refactoring/SaneIfElseInspection.java:131 | the in-place edit moves the siblings from `first` to `last` inclusive, as `MovedRangeAfter` of the old tree, and keeps the tree valid |
| Psi.PsiTree.Delete | src/main/java/com/linuxgods/kreiger/refactoring/SaneIfElseInspection.java:135 | the in-place edit equals `Deleted` on the old tree and keeps the tree valid |
| SaneIfElseInspection.InElseSlot | src/main/java/com/linuxgods/kreiger/refactoring/SaneIfElseInspection.java:68-72 | a node is in an else slot only when its parent is an `if` with a smaller id, and then it is not that `if`'s then-branch |
| SaneIfElseInspection.ChainTop | src/main/java/com/linuxgods/kreiger/refactoring/SaneIfElseInspection.java:65-80 | the climb through else slots ends at an ancestor that is not itself an else-branch, and stays put exactly when the start is not one; the head of a chain of `if`s is an `if` |
| SaneIfElseInspection.GetNextStatement | src/main/java/com/linuxgods/kreiger/refactoring/SaneIfElseInspection.java:65-80 | the `while (true)` walk terminates and returns the next statement sibling of the head of the else-if chain |
| SaneIfElseInspection.ChainTopOfParent | src/main/java/com/linuxgods/kreiger/refactoring/SaneIfElseInspection.java:68-74 | one step of the walk, from an else-branch to its `if`, keeps the chain head |
| SaneIfElseInspection.InMethodBody | src/main/java/com/linuxgods/kreiger/refactoring/SaneIfElseInspection.java:44-54 | the parent is a code block whose parent is a method; such an `if` has a parent with a smaller id and is not in an else slot |
| SaneIfElseInspection.BranchesBraced | src/main/java/com/linuxgods/kreiger/refactoring/SaneIfElseInspection.java:46-49 | both branches are block statements; then the `if` has two children and its two branches differ |
| SaneIfElseInspection.ThenBlock | src/main/java/com/linuxgods/kreiger/refactoring/SaneIfElseInspection.java:50 | the code block of the braced then-branch: a code block whose parent is the then-branch, distinct from the else-block |
| SaneIfElseInspection.ElseBlock | src/main/java/com/linuxgods/kreiger/refactoring/SaneIfElseInspection.java:51 | the code block of the braced else-branch: a code block whose parent is the else-branch |
| SaneIfElseInspection.Reported | src/main/java/com/linuxgods/kreiger/refactoring/SaneIfElseInspection.java:44-57 | the condition under which a problem is registered; a reported `if` sits in a method body with both branches braced, is its own chain head, and no statement follows it |
| SaneIfElseInspection.EnclosingMethod | src/main/java/com/linuxgods/kreiger/refactoring/SaneIfElseInspection.java:52 | the grandparent of an `if` in a method body is a method |
| SaneIfElseInspection.VisitIfStatement | src/main/java/com/linuxgods/kreiger/refactoring/SaneIfElseInspection.java:43-61 | a problem is registered exactly when all the gates pass (code-block parent, both branches braced, method above, more lines, no next statement), and it carries the `if` and that method |
| SaneIfElseInspection.MethodBodyWalkIsTrivial | src/main/java/com/linuxgods/kreiger/refactoring/SaneIfElseInspection.java:66-76 | for an `if` in a method body the walk takes no step |
| SaneIfElseInspection.ReportedIfIsLast | src/main/java/com/linuxgods/kreiger/refactoring/SaneIfElseInspection.java:57 | for an `if` in a method body the last gate passes exactly when no statement follows the `if` in that body |
| Psi.IsStatement | src/main/java/com/linuxgods/kreiger/refactoring/SaneIfElseInspection.java:78 | the statement kinds are exactly those that are not a method, a code block, a brace, whitespace or another element |
| SaneIfElseQuickFix.IsTerminator | src/main/java/com/linuxgods/kreiger/refactoring/SaneIfElseInspection.java:103 | a `return` or `throw` is a statement, and neither another statement nor an `if` |
| SaneIfElseQuickFix.Inverted | src/main/java/com/linuxgods/kreiger/refactoring/SaneIfElseInspection.java:98 | the condition is negated, the branches swap when both exist, and no other node changes |
| SaneIfElseQuickFix.InvertIfCondition | src/main/java/com/linuxgods/kreiger/refactoring/SaneIfElseInspection.java:98 | the in-place inversion equals `Inverted` on the old tree |
| SaneIfElseQuickFix.Anchor | src/main/java/com/linuxgods/kreiger/refactoring/SaneIfElseInspection.java:117-122 | the topmost of the consecutive `if` ancestors: its parent is not an `if`, it is an `if` when the start is one, and it is the start exactly when the start's parent is not an `if`; no branch slot is checked |
| SaneIfElseQuickFix.TopmostIf | src/main/java/com/linuxgods/kreiger/refactoring/SaneIfElseInspection.java:117-122 | the `for` loop terminates with `anchor` equal to `Anchor` and `parent` equal to the anchor's parent |
| SaneIfElseQuickFix.AnchorAboveChainTop | src/main/java/com/linuxgods/kreiger/refactoring/SaneIfElseInspection.java:120-122 | climbing for the anchor from the head of the else-if chain gives the same anchor as climbing from the `if` itself |
| SaneIfElseQuickFix.BlockChildIsOwnAnchor | src/main/java/com/linuxgods/kreiger/refactoring/SaneIfElseInspection.java:120 | an `if` in a method body is its own anchor and its own chain head |
| SaneIfElseQuickFix.Inner | src/main/java/com/linuxgods/kreiger/refactoring/SaneIfElseInspection.java:129-131 | `children[1] .. children[length - 2]` of a block with more than two children, none otherwise |
| SaneIfElseQuickFix.InnerBelow | src/main/java/com/linuxgods/kreiger/refactoring/SaneIfElseInspection.java:129 | the inner elements are children of the block with larger ids |
| SaneIfElseQuickFix.UnwrapTarget | src/main/java/com/linuxgods/kreiger/refactoring/SaneIfElseInspection.java:119-122 | where the `for` loop stops: null exactly when the anchor has no parent; otherwise a node that precedes the anchor, holds it as a child and is not an `if` |
| SaneIfElseQuickFix.AnchorByParents | src/main/java/com/linuxgods/kreiger/refactoring/SaneIfElseInspection.java:117-122 | the anchor depends only on the parents and kinds of the nodes up to the `if` |
| SaneIfElseQuickFix.UnwrapTargetFacts | src/main/java/com/linuxgods/kreiger/refactoring/SaneIfElseInspection.java:120-122 | the parent the loop ends on precedes the anchor, holds it as a child, and is neither an `if` nor a block statement |
| SaneIfElseQuickFix.Unwrapped | src/main/java/com/linuxgods/kreiger/refactoring/SaneIfElseInspection.java:114-136 | the unwrap on values keeps the tree well-formed and the node count and kinds unchanged |
| SaneIfElseQuickFix.LiftedStatement | src/main/java/com/linuxgods/kreiger/refactoring/SaneIfElseInspection.java:124-125 | an unbraced else-branch follows the anchor in the anchor's parent; the `if` keeps only its then-branch and nothing else changes |
| SaneIfElseQuickFix.LiftedBlock | src/main/java/com/linuxgods/kreiger/refactoring/SaneIfElseInspection.java:126-135 | lifting a braced else-branch keeps the tree well-formed |
| SaneIfElseQuickFix.LiftedBlockFacts | src/main/java/com/linuxgods/kreiger/refactoring/SaneIfElseInspection.java:127-135 | after the braced lift the `if` keeps only its then-branch; the inner elements follow the anchor in order and are re-parented there; the else-branch is detached; nothing outside these nodes changes and kinds are kept |
| SaneIfElseQuickFix.LiftedBlockEmptyIsDelete | src/main/java/com/linuxgods/kreiger/refactoring/SaneIfElseInspection.java:130-135 | with at most two children (just the braces) nothing is moved and the braced lift is exactly `delete` of the else-branch |
| SaneIfElseQuickFix.MovedUnwrapRange | src/main/java/com/linuxgods/kreiger/refactoring/SaneIfElseInspection.java:129-131 | `addRangeAfter` of the inner elements leaves the else-block with just its two braces and puts the inner elements after the anchor in their order |
| SaneIfElseQuickFix.UnwrapWithoutElse | src/main/java/com/linuxgods/kreiger/refactoring/SaneIfElseInspection.java:115-116 | without an else-branch the unwrap leaves the tree unchanged |
| SaneIfElseQuickFix.UnwrapLiftsBlock | src/main/java/com/linuxgods/kreiger/refactoring/SaneIfElseInspection.java:126-135 | a braced else: the target's children gain the inner elements right after the anchor, in order, all re-parented to the target; the `if` loses its else-branch, which is detached |
| SaneIfElseQuickFix.UnwrapLiftsStatement | src/main/java/com/linuxgods/kreiger/refactoring/SaneIfElseInspection.java:124-125 | an unbraced else: the statement itself follows the anchor in the target and the `if` loses its else-branch |
| SaneIfElseQuickFix.UnwrapWithoutTarget | src/main/java/com/linuxgods/kreiger/refactoring/SaneIfElseInspection.java:119-135 | when the anchor has no parent, the tree is unchanged at the null dereference, except that a braced else with nothing between its braces is deleted |
| SaneIfElseQuickFix.UnwrapFrame | src/main/java/com/linuxgods/kreiger/refactoring/SaneIfElseInspection.java:114-136 | the unwrap changes no node other than the `if`, the target, the else-branch and the two levels below it |
| SaneIfElseQuickFix.UnwrapIdempotent | src/main/java/com/linuxgods/kreiger/refactoring/SaneIfElseInspection.java:114-136 | unwrapping a second time changes nothing |
| SaneIfElseQuickFix.FixedTree | src/main/java/com/linuxgods/kreiger/refactoring/SaneIfElseInspection.java:97-112 | the whole fix on values keeps the tree well-formed and adds at most one node |
| SaneIfElseQuickFix.AddedReturnIsLast | src/main/java/com/linuxgods/kreiger/refactoring/SaneIfElseInspection.java:108-109 | `return;` added before a closing brace that is not a statement becomes the block's last statement |
| SaneIfElseQuickFix.LastStatementInBlockFrame | src/main/java/com/linuxgods/kreiger/refactoring/SaneIfElseInspection.java:102 | the last statement of a block depends only on its children and their kinds |
| SaneIfElseQuickFix.InvertedKeepsBlock | src/main/java/com/linuxgods/kreiger/refactoring/SaneIfElseInspection.java:98-102 | the inversion changes no block below the `if`, nor its last child, nor its last statement |
| SaneIfElseQuickFix.InvertedThenBlock | src/main/java/com/linuxgods/kreiger/refactoring/SaneIfElseInspection.java:98-101 | after the inversion the then-branch is the old braced else-branch with the same code block |
| SaneIfElseQuickFix.FixDeclinesNonVoid | src/main/java/com/linuxgods/kreiger/refactoring/SaneIfElseInspection.java:103-106 | in a non-void method whose new then-block does not end in `return`/`throw`, the fix is the inversion alone: branches swapped, the else-branch still present, no statement added |
| SaneIfElseQuickFix.FixOfTerminatedBlock | src/main/java/com/linuxgods/kreiger/refactoring/SaneIfElseInspection.java:102-111 | when the new then-block already ends in `return`/`throw` nothing is added: the fix is inversion then unwrap and the node count is unchanged |
| SaneIfElseQuickFix.UnwrapKeepsThenBlock | src/main/java/com/linuxgods/kreiger/refactoring/SaneIfElseInspection.java:111 | the unwrap leaves the then-block, its children and its last statement as they were |
| SaneIfElseQuickFix.FixWithReturnPrepared | src/main/java/com/linuxgods/kreiger/refactoring/SaneIfElseInspection.java:103-111 | in a `void` method without a terminator the fix is the unwrap of the inverted tree with `return;` added, and that tree still has the old else-branch as its then-branch |
| SaneIfElseQuickFix.FixInsertsReturn | src/main/java/com/linuxgods/kreiger/refactoring/SaneIfElseInspection.java:103-110 | in a `void` method where the new then-block has no terminator and its last child is not a statement (its closing brace, normally), exactly one node is added, a bare `return;` in that block, and after the whole fix it is that block's last statement |
| SaneIfElseQuickFix.FixReturnPlacement | src/main/java/com/linuxgods/kreiger/refactoring/SaneIfElseInspection.java:108-109 | under the conditions of `FixInsertsReturn`, the block after the whole fix has the old children with the new `return;` placed right before the last child, or at the end of an empty block; its kind and parent are kept |
| SaneIfElseQuickFix.FixFrame | src/main/java/com/linuxgods/kreiger/refactoring/SaneIfElseInspection.java:97-112 | the whole fix changes no node of the old tree other than the `if`, the new then-block and what the unwrap touches, namely the anchor's parent, the new else-branch and the two levels below it |
| SaneIfElseQuickFix.UnwrapInCodeBlock | src/main/java/com/linuxgods/kreiger/refactoring/SaneIfElseInspection.java:117-135 | for an `if` directly in a code block, the else-block's inner elements follow the `if` in that block |
| SaneIfElseQuickFix.UnwrapOfReported | src/main/java/com/linuxgods/kreiger/refactoring/SaneIfElseInspection.java:111 | for a reported `if`, the unwrap after either preparation moves the old then-block's inner elements after the `if` in the method body |
| SaneIfElseQuickFix.FixOfReportedIf | src/main/java/com/linuxgods/kreiger/refactoring/SaneIfElseInspection.java:97-112 | for a reported `if` that the fix does not abandon: the condition is negated, the old else-branch is the only branch, the old then-block's inner elements follow the `if` in order in the method body, and the old then-branch is detached |
| SaneIfElseQuickFix.SaneIfElseQuickFix.constructor | src/main/java/com/linuxgods/kreiger/refactoring/SaneIfElseInspection.java:86-89 | the fix remembers the `if` and the method |
| SaneIfElseQuickFix.SaneIfElseQuickFix.BoundTo | src/main/java/com/linuxgods/kreiger/refactoring/SaneIfElseInspection.java:83-84 | the fix's `if` and method are nodes of the tree with the kinds their declared types give; then the tree is well-formed and the two differ |
| SaneIfElseQuickFix.SaneIfElseQuickFix.ApplyFix | src/main/java/com/linuxgods/kreiger/refactoring/SaneIfElseInspection.java:97-112 | the in-place fix leaves the tree equal to `FixedTree` of the old tree and keeps the fix bound to it |
| SaneIfElseQuickFix.SaneIfElseQuickFix.UnwrapRedundantElse | src/main/java/com/linuxgods/kreiger/refactoring/SaneIfElseInspection.java:114-136 | the in-place unwrap leaves the tree equal to `Unwrapped` of the old tree |
| SaneIfElseQuickFix.LiftStatementOut | src/main/java/com/linuxgods/kreiger/refactoring/SaneIfElseInspection.java:124-125 | the unbraced branch of the method: `addAfter` gives exactly `Unwrapped` |
| SaneIfElseQuickFix.LiftBlockOut | src/main/java/com/linuxgods/kreiger/refactoring/SaneIfElseInspection.java:127-135 | the braced branch with inner elements: `addRangeAfter` then `delete` gives exactly `Unwrapped` |

## Left out

- Copies and moves: PSI's `addAfter` and `addRangeAfter` insert copies, and the originals
  are then deleted. The model moves the original nodes instead. The attached tree has the same
  shape and order either way; only node identity differs. So in the unbraced case no separate
  `delete` is modelled: the move has already taken the else-branch out of the `if`.
- SaneIfElseQuickFix.Inverted: the IDE's "invert if" action is not part of this model. It is
  taken as given: the condition is negated abstractly and the branches swap when both exist.
  The code can be edited between the report and the fix, so the fix may meet an `if` without
  an else-branch. There the model only negates the condition, and in a `void` method `FixedTree`
  then appends `return;` to the old then-block: `if (c) { s; }` becomes
  `if (!c) { s; return; }`, so `s` runs under the negated condition. The real action
  restructures such code instead of only negating it, so on this path the model does not
  describe what the IDE produces.
- Line counts come from `getText().lines().count()`, which needs the source text. They are an
  attribute of each code block, supplied with the tree, and edits do not update them.
- An `if` with an else-branch but no then-branch cannot be represented: the then-branch is
  always the first child.
- Exceptions: the null dereference when the anchor has no parent is modelled as "no further
  change"; the exception itself is not modelled.
- IDE plumbing is not modelled: `registerProblem`, the problem description,
  `getStaticDescription`, `getFamilyName`, the project and the element factory (the new
  `return;` is a fresh leaf node), PSI validity checks, write actions and concurrency.
- Psi.AddedBefore: the new `return;` carries no children for its keyword and semicolon tokens.
