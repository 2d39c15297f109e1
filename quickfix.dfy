/** The rewriting half of the sane-if-else inspection: the quick fix that inverts the `if`, makes
    the new then-block end in `return` or `throw`, and lifts the contents of the now redundant
    else-branch out after the `if`. */
module SaneIfElseQuickFix {
  import opened Psi
  import opened SaneIfElseInspection

  /** `PsiReturnStatement` or `PsiThrowStatement`. */
  predicate IsTerminator(k: Kind): (b: bool)
    ensures b ==> IsStatement(k) && !k.OtherStatement? && !k.IfStatement?
  {
    k.ReturnStatement? || k.ThrowStatement?
  }

  // ---------------------------------------------------------------------------------------
  // Inverting the condition (the IDE's "invert if" action, taken as given)

  /** The `if` gets the negated condition and, when it has both, its branches swap places. */
  function Inverted(t: Tree, i: nat): (r: Tree)
    requires WellFormed(t) && i < |t| && t[i].kind.IfStatement?
    ensures |r| == |t| && WellFormed(r)
    ensures r[i] == t[i].(kind := IfStatement(Negated(t[i].kind.condition)),
                          children := r[i].children)
    ensures ElseBranch(t, i).Some? ==>
      ThenBranch(r, i) == ElseBranch(t, i) && ElseBranch(r, i) == ThenBranch(t, i)
    ensures ElseBranch(t, i).None? ==> r[i].children == t[i].children
    ensures forall n {:trigger r[n]} :: 0 <= n < |t| && n != i ==> r[n] == t[n]
  {
    var ch := t[i].children;
    assert NodeShaped(t, i);
    var swapped := if |ch| == 2 then [ch[1], ch[0]] else ch;
    var r := t[i := Node(IfStatement(Negated(t[i].kind.condition)), t[i].parent, swapped)];
    InvertedWellFormed(t, r, i);
    r
  }

  lemma InvertedWellFormed(t: Tree, r: Tree, i: nat)
    requires WellFormed(t) && i < |t| && t[i].kind.IfStatement?
    requires var ch := t[i].children;
      r == t[i := Node(IfStatement(Negated(t[i].kind.condition)), t[i].parent,
                       if |ch| == 2 then [ch[1], ch[0]] else ch)]
    ensures WellFormed(r)
  {
    var ch := t[i].children;
    assert NodeShaped(t, i);
    assert forall x :: x in r[i].children <==> x in ch;
    assert forall n :: 0 <= n < |t| && n != i ==> r[n] == t[n];
    forall n | 0 <= n < |r| && r[n].parent.Some?
      ensures r[n].parent.value < n && n in r[r[n].parent.value].children
    {
      assert n in t[t[n].parent.value].children;
    }
    forall n, j | 0 <= n < |r| && 0 <= j < |r[n].children|
      ensures r[n].children[j] < |r| && r[r[n].children[j]].parent == Some(n)
    {
      if n == i {
        assert r[n].children[j] in ch;
      }
    }
    forall n | 0 <= n < |r| ensures NodeShaped(r, n) {
      assert NodeShaped(t, n);
    }
  }

  /** `new InvertIfConditionAction().invoke(...)` on the `if`. */
  method InvertIfCondition(tree: PsiTree, i: nat)
    requires tree.Valid() && i < |tree.nodes| && tree.nodes[i].kind.IfStatement?
    modifies tree
    ensures tree.Valid() && tree.nodes == Inverted(old(tree.nodes), i)
  {
    tree.nodes := Inverted(tree.nodes, i);
  }

  // ---------------------------------------------------------------------------------------
  // The anchor after which the else-branch is lifted

  /** The topmost of the consecutive `if` ancestors of `s` (or `s` itself). Unlike the walk of
      `getNextStatement`, this climb does not look at which branch it comes from. */
  ghost function Anchor(t: Tree, s: nat): (a: nat)
    requires WellFormed(t) && s < |t|
    ensures a <= s
    ensures t[a].parent.None? || !t[t[a].parent.value].kind.IfStatement?
    ensures t[s].kind.IfStatement? ==> t[a].kind.IfStatement?
    ensures a == s <==> t[s].parent.None? || !t[t[s].parent.value].kind.IfStatement?
    decreases s
  {
    match t[s].parent
    case None => s
    case Some(p) => if t[p].kind.IfStatement? then Anchor(t, p) else s
  }

  /** The head of an else-if chain lies on the way from a node to its anchor, so starting the
      anchor climb there or at the node itself gives the same anchor. */
  lemma {:induction false} AnchorAboveChainTop(t: Tree, s: nat)
    requires WellFormed(t) && s < |t|
    ensures Anchor(t, ChainTop(t, s)) == Anchor(t, s)
    decreases s
  {
    if InElseSlot(t, s) {
      AnchorAboveChainTop(t, t[s].parent.value);
    }
  }

  /** An `if` directly in a code block is its own anchor. */
  lemma BlockChildIsOwnAnchor(t: Tree, i: nat)
    requires WellFormed(t) && i < |t| && InMethodBody(t, i)
    ensures Anchor(t, i) == i && ChainTop(t, i) == i
  {
  }

  // ---------------------------------------------------------------------------------------
  // Unwrapping the else-branch

  /** The elements strictly between the braces of a code block, as `children[1] ..
      children[length - 2]`; none when the block has at most two children. */
  function Inner(t: Tree, b: nat): (inner: seq<nat>)
    requires b < |t|
    ensures |t[b].children| > 2 ==>
      |inner| == |t[b].children| - 2 &&
      forall k :: 0 <= k < |inner| ==> inner[k] == t[b].children[k + 1]
    ensures |t[b].children| <= 2 ==> inner == []
  {
    var ch := t[b].children;
    if |ch| > 2 then ch[1..|ch| - 1] else []
  }

  lemma InnerBelow(t: Tree, b: nat)
    requires WellFormed(t) && b < |t|
    ensures forall x :: x in Inner(t, b) ==> b < x < |t| && t[x].parent == Some(b)
  {
    forall x | x in Inner(t, b) ensures b < x < |t| && t[x].parent == Some(b) {
      var k :| 0 <= k < |Inner(t, b)| && Inner(t, b)[k] == x;
      assert x == t[b].children[k + 1];
    }
  }

  /** The parent of the anchor, where the else-branch's statements go. */
  ghost function UnwrapTarget(t: Tree, i: nat): (r: Option<nat>)
    requires WellFormed(t) && i < |t|
    ensures r.Some? ==> r.value < Anchor(t, i) && Anchor(t, i) in t[r.value].children &&
                        !t[r.value].kind.IfStatement?
    ensures r.None? <==> t[Anchor(t, i)].parent.None?
  {
    t[Anchor(t, i)].parent
  }

  /** The nodes the unwrap may change: the `if`, the target, the else-branch and the two levels
      below it. */
  ghost predicate UnwrapTouches(t: Tree, i: nat, n: nat)
    requires WellFormed(t) && i < |t| && n < |t|
  {
    n == i || Some(n) == UnwrapTarget(t, i) ||
    (ElseBranch(t, i).Some? &&
     var e := ElseBranch(t, i).value;
     n == e || t[n].parent == Some(e) ||
     (t[n].parent.Some? && t[t[n].parent.value].parent == Some(e)))
  }

  /** Where the unwrap inserts, when the anchor has a parent: that parent precedes the anchor,
      holds it as a child, and is neither an `if` nor a block statement. */
  lemma UnwrapTargetFacts(t: Tree, i: nat)
    requires WellFormed(t) && i < |t| && t[i].kind.IfStatement? && UnwrapTarget(t, i).Some?
    ensures var target := UnwrapTarget(t, i).value;
      target < Anchor(t, i) <= i && Anchor(t, i) in t[target].children &&
      !t[target].kind.IfStatement? && !t[target].kind.BlockStatement?
  {
    var a := Anchor(t, i);
    var target := UnwrapTarget(t, i).value;
    assert a in t[target].children;
    assert NodeShaped(t, target);
  }

  /** `unwrapRedundantElse` on values: the else-branch's statements are placed after the anchor
      in the anchor's parent, and the else-branch leaves the `if`. When the anchor has no
      parent, the source dereferences null as soon as it has something to place; only a braced
      else-branch with nothing between its braces gets as far as `delete`. */
  ghost function Unwrapped(t: Tree, i: nat): (r: Tree)
    requires WellFormed(t) && i < |t| && t[i].kind.IfStatement?
    ensures |r| == |t| && WellFormed(r)
    ensures forall n {:trigger r[n]} :: 0 <= n < |t| ==> r[n].kind == t[n].kind
  {
    match ElseBranch(t, i)
    case None => t
    case Some(e) =>
      match UnwrapTarget(t, i)
      case None =>
        if t[e].kind.BlockStatement? && |t[CodeBlockOf(t, e)].children| <= 2 then Deleted(t, e) else t
      case Some(target) =>
        UnwrapTargetFacts(t, i);
        if t[e].kind.BlockStatement? then LiftedBlockFrame(t, i, e, target); LiftedBlock(t, i, e, target)
        else LiftedStatement(t, i, e, target)
  }

  /** An unbraced else-branch moves as a whole after the anchor. */
  ghost function LiftedStatement(t: Tree, i: nat, e: nat, target: nat): (r: Tree)
    requires WellFormed(t) && i < |t| && t[i].kind.IfStatement? && ElseBranch(t, i) == Some(e)
    requires UnwrapTarget(t, i) == Some(target)
    requires target < Anchor(t, i) <= i && Anchor(t, i) in t[target].children
    requires !t[target].kind.IfStatement? && !t[target].kind.BlockStatement?
    ensures |r| == |t| && WellFormed(r)
    ensures r[i] == t[i].(children := [t[i].children[0]])
    ensures r[target] == t[target].(children := InsertedAfter(t[target].children, Anchor(t, i), [e]))
    ensures r[e] == t[e].(parent := Some(target))
    ensures forall n {:trigger r[n]} :: 0 <= n < |t| && n != i && n != target && n != e ==> r[n] == t[n]
  {
    assert NodeShaped(t, i);
    assert t[i].children[1..2] == [e] && t[i].children[..1] + t[i].children[2..] == [t[i].children[0]];
    MovedRangeAfter(t, i, 1, 2, target, Anchor(t, i))
  }

  /** A braced else-branch gives up the elements between its braces, which move after the
      anchor, and is then deleted. */
  ghost function LiftedBlock(t: Tree, i: nat, e: nat, target: nat): (r: Tree)
    requires WellFormed(t) && i < |t| && t[i].kind.IfStatement? && ElseBranch(t, i) == Some(e)
    requires t[e].kind.BlockStatement?
    requires UnwrapTarget(t, i) == Some(target)
    requires target < Anchor(t, i) <= i && Anchor(t, i) in t[target].children
    requires !t[target].kind.IfStatement? && !t[target].kind.BlockStatement?
    ensures |r| == |t| && WellFormed(r)
  {
    var b := CodeBlockOf(t, e);
    var t1 := if |t[b].children| > 2 then MovedUnwrapRange(t, b, target, Anchor(t, i)) else t;
    LiftedBlockStep(t, i, e, target, t1);
    Deleted(t1, e)
  }

  /** What lifting a braced else-branch changes: the `if` keeps its then-branch only, the
      target receives the inner elements after the anchor, the else-branch is detached, and
      nothing outside these, the else-block and its children changes. */
  lemma LiftedBlockFacts(t: Tree, i: nat, e: nat, target: nat)
    requires WellFormed(t) && i < |t| && t[i].kind.IfStatement? && ElseBranch(t, i) == Some(e)
    requires t[e].kind.BlockStatement?
    requires UnwrapTarget(t, i) == Some(target)
    requires target < Anchor(t, i) <= i && Anchor(t, i) in t[target].children
    requires !t[target].kind.IfStatement? && !t[target].kind.BlockStatement?
    ensures var r := LiftedBlock(t, i, e, target);
      r[i] == t[i].(children := [t[i].children[0]]) &&
      r[target] == t[target].(children := InsertedAfter(t[target].children, Anchor(t, i), Inner(t, CodeBlockOf(t, e)))) &&
      r[e] == t[e].(parent := None)
    ensures var r := LiftedBlock(t, i, e, target);
      forall x :: x in Inner(t, CodeBlockOf(t, e)) ==> r[x] == t[x].(parent := Some(target))
    ensures var r := LiftedBlock(t, i, e, target);
      forall n {:trigger r[n]} :: (0 <= n < |t| && n != i && n != target && n != e && n != CodeBlockOf(t, e) &&
                                   t[n].parent != Some(CodeBlockOf(t, e))) ==> r[n] == t[n]
    ensures var r := LiftedBlock(t, i, e, target);
      forall n {:trigger r[n]} :: 0 <= n < |t| ==> r[n].kind == t[n].kind
  {
    LiftedBlockEdges(t, i, e, target);
    LiftedBlockInner(t, i, e, target);
    LiftedBlockFrame(t, i, e, target);
  }

  lemma LiftedBlockEdges(t: Tree, i: nat, e: nat, target: nat)
    requires WellFormed(t) && i < |t| && t[i].kind.IfStatement? && ElseBranch(t, i) == Some(e)
    requires t[e].kind.BlockStatement?
    requires UnwrapTarget(t, i) == Some(target)
    requires target < Anchor(t, i) <= i && Anchor(t, i) in t[target].children
    requires !t[target].kind.IfStatement? && !t[target].kind.BlockStatement?
    ensures var r := LiftedBlock(t, i, e, target);
      r[i] == t[i].(children := [t[i].children[0]]) &&
      r[target] == t[target].(children := InsertedAfter(t[target].children, Anchor(t, i), Inner(t, CodeBlockOf(t, e)))) &&
      r[e] == t[e].(parent := None)
  {
    var b := CodeBlockOf(t, e);
    var t1 := if |t[b].children| > 2 then MovedUnwrapRange(t, b, target, Anchor(t, i)) else t;
    LiftedBlockStep(t, i, e, target, t1);
    assert LiftedBlock(t, i, e, target) == Deleted(t1, e);
  }

  lemma LiftedBlockInner(t: Tree, i: nat, e: nat, target: nat)
    requires WellFormed(t) && i < |t| && t[i].kind.IfStatement? && ElseBranch(t, i) == Some(e)
    requires t[e].kind.BlockStatement?
    requires UnwrapTarget(t, i) == Some(target)
    requires target < Anchor(t, i) <= i && Anchor(t, i) in t[target].children
    requires !t[target].kind.IfStatement? && !t[target].kind.BlockStatement?
    ensures var r := LiftedBlock(t, i, e, target);
      forall x :: x in Inner(t, CodeBlockOf(t, e)) ==> r[x] == t[x].(parent := Some(target))
  {
    var b := CodeBlockOf(t, e);
    var t1 := if |t[b].children| > 2 then MovedUnwrapRange(t, b, target, Anchor(t, i)) else t;
    LiftedBlockStep(t, i, e, target, t1);
    InnerBelow(t, b);
    assert LiftedBlock(t, i, e, target) == Deleted(t1, e);
  }

  lemma LiftedBlockFrame(t: Tree, i: nat, e: nat, target: nat)
    requires WellFormed(t) && i < |t| && t[i].kind.IfStatement? && ElseBranch(t, i) == Some(e)
    requires t[e].kind.BlockStatement?
    requires UnwrapTarget(t, i) == Some(target)
    requires target < Anchor(t, i) <= i && Anchor(t, i) in t[target].children
    requires !t[target].kind.IfStatement? && !t[target].kind.BlockStatement?
    ensures var r := LiftedBlock(t, i, e, target);
      forall n {:trigger r[n]} :: (0 <= n < |t| && n != i && n != target && n != e && n != CodeBlockOf(t, e) &&
                                   t[n].parent != Some(CodeBlockOf(t, e))) ==> r[n] == t[n]
    ensures var r := LiftedBlock(t, i, e, target);
      forall n {:trigger r[n]} :: 0 <= n < |t| ==> r[n].kind == t[n].kind
  {
    var b := CodeBlockOf(t, e);
    var t1 := if |t[b].children| > 2 then MovedUnwrapRange(t, b, target, Anchor(t, i)) else t;
    LiftedBlockStep(t, i, e, target, t1);
    assert t1[e].parent == Some(i);
    var r := Deleted(t1, e);
    assert LiftedBlock(t, i, e, target) == r;
    forall n | 0 <= n < |t| && n != i && n != target && n != e && n != b && t[n].parent != Some(b)
      ensures r[n] == t[n]
    {
      assert r[n] == t1[n];
    }
    forall n | 0 <= n < |t| ensures r[n].kind == t[n].kind
    {
      assert r[n].kind == t1[n].kind;
    }
  }

  /** With nothing between its braces, lifting a braced else-branch is deleting it. */
  lemma LiftedBlockEmptyIsDelete(t: Tree, i: nat, e: nat, target: nat)
    requires WellFormed(t) && i < |t| && t[i].kind.IfStatement? && ElseBranch(t, i) == Some(e)
    requires t[e].kind.BlockStatement? && |t[CodeBlockOf(t, e)].children| <= 2
    requires UnwrapTarget(t, i) == Some(target)
    requires target < Anchor(t, i) <= i && Anchor(t, i) in t[target].children
    requires !t[target].kind.IfStatement? && !t[target].kind.BlockStatement?
    ensures LiftedBlock(t, i, e, target) == Deleted(t, e)
  {
  }

  /** What the first step of the block case leaves for `delete` to find. */
  lemma LiftedBlockStep(t: Tree, i: nat, e: nat, target: nat, t1: Tree)
    requires WellFormed(t) && i < |t| && t[i].kind.IfStatement? && ElseBranch(t, i) == Some(e)
    requires t[e].kind.BlockStatement?
    requires UnwrapTarget(t, i) == Some(target)
    requires target < Anchor(t, i) <= i && Anchor(t, i) in t[target].children
    requires !t[target].kind.IfStatement? && !t[target].kind.BlockStatement?
    requires var b := CodeBlockOf(t, e);
      t1 == if |t[b].children| > 2 then MovedUnwrapRange(t, b, target, Anchor(t, i)) else t
    ensures |t1| == |t| && WellFormed(t1)
    ensures t1[e] == t[e] && t1[i] == t[i]
    ensures Removed(t1[i].children, e) == [t[i].children[0]]
    ensures t1[target] == t[target].(children := InsertedAfter(t[target].children, Anchor(t, i), Inner(t, CodeBlockOf(t, e))))
    ensures forall x :: x in Inner(t, CodeBlockOf(t, e)) ==> t1[x] == t[x].(parent := Some(target))
    ensures forall n {:trigger t1[n]} :: (0 <= n < |t| && n != target && n != CodeBlockOf(t, e) &&
                         t[n].parent != Some(CodeBlockOf(t, e))) ==> t1[n] == t[n]
    ensures forall n {:trigger t1[n]} :: 0 <= n < |t| ==> t1[n].kind == t[n].kind
  {
    if |t[CodeBlockOf(t, e)].children| > 2 {
      LiftedBlockMoved(t, i, e, target, t1);
    } else {
      LiftedBlockEmpty(t, i, e, target);
    }
  }

  lemma LiftedBlockMoved(t: Tree, i: nat, e: nat, target: nat, t1: Tree)
    requires WellFormed(t) && i < |t| && t[i].kind.IfStatement? && ElseBranch(t, i) == Some(e)
    requires t[e].kind.BlockStatement?
    requires UnwrapTarget(t, i) == Some(target)
    requires target < Anchor(t, i) <= i && Anchor(t, i) in t[target].children
    requires !t[target].kind.IfStatement? && !t[target].kind.BlockStatement?
    requires var b := CodeBlockOf(t, e);
      |t[b].children| > 2 && t1 == MovedUnwrapRange(t, b, target, Anchor(t, i))
    ensures |t1| == |t| && WellFormed(t1)
    ensures t1[e] == t[e] && t1[i] == t[i]
    ensures Removed(t1[i].children, e) == [t[i].children[0]]
    ensures t1[target] == t[target].(children := InsertedAfter(t[target].children, Anchor(t, i), Inner(t, CodeBlockOf(t, e))))
    ensures forall x :: x in Inner(t, CodeBlockOf(t, e)) ==> t1[x] == t[x].(parent := Some(target))
    ensures forall n {:trigger t1[n]} :: (0 <= n < |t| && n != target && n != CodeBlockOf(t, e) &&
                         t[n].parent != Some(CodeBlockOf(t, e))) ==> t1[n] == t[n]
    ensures forall n {:trigger t1[n]} :: 0 <= n < |t| ==> t1[n].kind == t[n].kind
  {
    ElseOfBlockIf(t, i, e);
  }

  lemma LiftedBlockEmpty(t: Tree, i: nat, e: nat, target: nat)
    requires WellFormed(t) && i < |t| && t[i].kind.IfStatement? && ElseBranch(t, i) == Some(e)
    requires t[e].kind.BlockStatement? && |t[CodeBlockOf(t, e)].children| <= 2
    requires target < |t| && Anchor(t, i) in t[target].children
    ensures Inner(t, CodeBlockOf(t, e)) == []
    ensures InsertedAfter(t[target].children, Anchor(t, i), Inner(t, CodeBlockOf(t, e))) == t[target].children
    ensures Removed(t[i].children, e) == [t[i].children[0]]
  {
    InsertedNothing(t[target].children, Anchor(t, i));
    ElseOfBlockIf(t, i, e);
  }

  /** Dropping the else-branch of an `if` leaves its then-branch alone. */
  lemma ElseOfBlockIf(t: Tree, i: nat, e: nat)
    requires WellFormed(t) && i < |t| && t[i].kind.IfStatement? && ElseBranch(t, i) == Some(e)
    ensures Removed(t[i].children, e) == [t[i].children[0]]
  {
    assert NodeShaped(t, i);
    var th := t[i].children[0];
    assert t[i].children == [th, e];
    RemovedSecond(th, e);
  }

  lemma RemovedSecond(a: nat, e: nat)
    requires a != e
    ensures Removed([a, e], e) == [a]
  {
    assert IndexOf([a, e], e) == 1;
    assert [a, e][..1] + [a, e][2..] == [a];
  }

  /** The block case of the unwrap: `children[1] .. children[length - 2]` of the else-block
      move after the anchor. */
  ghost function MovedUnwrapRange(t: Tree, b: nat, target: nat, anchor: nat): (r: Tree)
    requires WellFormed(t) && b < |t| && target < |t| && target < b
    requires t[b].kind.CodeBlock? && |t[b].children| > 2
    requires !t[target].kind.IfStatement? && !t[target].kind.BlockStatement?
    requires anchor in t[target].children
    ensures |r| == |t| && WellFormed(r)
    ensures r[b] == t[b].(children := [t[b].children[0], t[b].children[|t[b].children| - 1]])
    ensures r[target] == t[target].(children := InsertedAfter(t[target].children, anchor, Inner(t, b)))
    ensures forall x :: x in Inner(t, b) ==> r[x] == t[x].(parent := Some(target))
    ensures forall n {:trigger r[n]} :: 0 <= n < |t| && n != b && n != target && t[n].parent != Some(b) ==> r[n] == t[n]
    ensures forall n {:trigger r[n]} :: 0 <= n < |t| ==> r[n].kind == t[n].kind
  {
    var ch := t[b].children;
    InnerSpan(t, b, target);
    var r := MovedRangeAfter(t, b, 1, |ch| - 1, target, anchor);
    r
  }

  /** The inner elements of a block with more than two children are the slice between its first
      and last child, all below the block. */
  lemma InnerSpan(t: Tree, b: nat, target: nat)
    requires WellFormed(t) && b < |t| && target < b && |t[b].children| > 2
    ensures var ch := t[b].children;
      Inner(t, b) == ch[1..|ch| - 1] && ch[..1] + ch[|ch| - 1..] == [ch[0], ch[|ch| - 1]] &&
      (forall k :: 1 <= k < |ch| - 1 ==> target < ch[k])
    ensures forall n :: 0 <= n < |t| && n in Inner(t, b) ==> t[n].parent == Some(b)
  {
    var ch := t[b].children;
    forall k | 1 <= k < |ch| - 1 ensures target < ch[k] {
      assert t[ch[k]].parent == Some(b);
    }
    assert ch[..1] + ch[|ch| - 1..] == [ch[0], ch[|ch| - 1]];
    InnerBelow(t, b);
  }

  // ---------------------------------------------------------------------------------------
  // What the unwrap does

  /** Without an else-branch there is nothing to unwrap. */
  lemma UnwrapWithoutElse(t: Tree, i: nat)
    requires WellFormed(t) && i < |t| && t[i].kind.IfStatement? && ElseBranch(t, i).None?
    ensures Unwrapped(t, i) == t
  {
  }

  /** A braced else-branch: the elements between its braces follow the anchor, in their order,
      under the anchor's parent; the else-branch is detached and the `if` keeps only its
      then-branch. */
  lemma UnwrapLiftsBlock(t: Tree, i: nat)
    requires WellFormed(t) && i < |t| && t[i].kind.IfStatement?
    requires ElseBranch(t, i).Some? && t[ElseBranch(t, i).value].kind.BlockStatement?
    requires UnwrapTarget(t, i).Some?
    ensures var r := Unwrapped(t, i);
      var e := ElseBranch(t, i).value;
      var target := UnwrapTarget(t, i).value;
      var inner := Inner(t, CodeBlockOf(t, e));
      r[target].children == InsertedAfter(t[target].children, Anchor(t, i), inner) &&
      (forall x :: x in inner ==> r[x].parent == Some(target)) &&
      r[i].children == [t[i].children[0]] && ElseBranch(r, i).None? &&
      r[e].parent.None?
  {
    var e := ElseBranch(t, i).value;
    var target := UnwrapTarget(t, i).value;
    UnwrapTargetFacts(t, i);
    assert Unwrapped(t, i) == LiftedBlock(t, i, e, target);
    LiftedBlockEdges(t, i, e, target);
    LiftedBlockInner(t, i, e, target);
  }

  /** An unbraced else-branch: the statement itself follows the anchor under the anchor's
      parent, and the `if` keeps only its then-branch. */
  lemma UnwrapLiftsStatement(t: Tree, i: nat)
    requires WellFormed(t) && i < |t| && t[i].kind.IfStatement?
    requires ElseBranch(t, i).Some? && !t[ElseBranch(t, i).value].kind.BlockStatement?
    requires UnwrapTarget(t, i).Some?
    ensures var r := Unwrapped(t, i);
      var e := ElseBranch(t, i).value;
      var target := UnwrapTarget(t, i).value;
      r[target].children == InsertedAfter(t[target].children, Anchor(t, i), [e]) &&
      r[e].parent == Some(target) &&
      r[i].children == [t[i].children[0]] && ElseBranch(r, i).None?
  {
    UnwrapTargetFacts(t, i);
  }

  /** When the anchor has no parent, the tree is left as it is, except that a braced
      else-branch with nothing between its braces is still deleted. */
  lemma UnwrapWithoutTarget(t: Tree, i: nat)
    requires WellFormed(t) && i < |t| && t[i].kind.IfStatement?
    requires ElseBranch(t, i).Some? && UnwrapTarget(t, i).None?
    ensures var e := ElseBranch(t, i).value;
      if t[e].kind.BlockStatement? && |t[CodeBlockOf(t, e)].children| <= 2
      then Unwrapped(t, i) == Deleted(t, e) && ElseBranch(Unwrapped(t, i), i).None?
      else Unwrapped(t, i) == t
  {
    var e := ElseBranch(t, i).value;
    if t[e].kind.BlockStatement? && |t[CodeBlockOf(t, e)].children| <= 2 {
      ElseOfBlockIf(t, i, e);
    }
  }

  /** The unwrap changes nothing outside the `if`, the anchor's parent, the else-branch and
      the two levels below the else-branch. */
  lemma UnwrapFrame(t: Tree, i: nat)
    requires WellFormed(t) && i < |t| && t[i].kind.IfStatement?
    ensures forall n {:trigger Unwrapped(t, i)[n]} :: 0 <= n < |t| && !UnwrapTouches(t, i, n) ==> Unwrapped(t, i)[n] == t[n]
  {
    match ElseBranch(t, i)
    case None =>
    case Some(e) =>
      match UnwrapTarget(t, i)
      case None =>
      case Some(target) =>
        UnwrapTargetFacts(t, i);
        if t[e].kind.BlockStatement? {
          assert Unwrapped(t, i) == LiftedBlock(t, i, e, target);
          LiftedBlockUntouched(t, i, e, target);
        }
  }

  lemma LiftedBlockUntouched(t: Tree, i: nat, e: nat, target: nat)
    requires WellFormed(t) && i < |t| && t[i].kind.IfStatement? && ElseBranch(t, i) == Some(e)
    requires t[e].kind.BlockStatement?
    requires UnwrapTarget(t, i) == Some(target)
    requires target < Anchor(t, i) <= i && Anchor(t, i) in t[target].children
    requires !t[target].kind.IfStatement? && !t[target].kind.BlockStatement?
    ensures var r := LiftedBlock(t, i, e, target);
      forall n {:trigger r[n]} :: 0 <= n < |t| && !UnwrapTouches(t, i, n) ==> r[n] == t[n]
  {
    var r := LiftedBlock(t, i, e, target);
    var b := CodeBlockOf(t, e);
    LiftedBlockFrame(t, i, e, target);
    forall n | 0 <= n < |t| && !UnwrapTouches(t, i, n) ensures r[n] == t[n] {
      assert n != b && t[n].parent != Some(b) by { assert t[b].parent == Some(e); }
    }
  }

  /** Unwrapping twice is unwrapping once: after a successful unwrap the `if` has no
      else-branch, and when the unwrap gave up it gives up again. */
  lemma UnwrapIdempotent(t: Tree, i: nat)
    requires WellFormed(t) && i < |t| && t[i].kind.IfStatement?
    ensures Unwrapped(Unwrapped(t, i), i) == Unwrapped(t, i)
  {
    var r := Unwrapped(t, i);
    match ElseBranch(t, i)
    case None =>
    case Some(e) =>
      match UnwrapTarget(t, i)
      case None =>
        UnwrapWithoutTarget(t, i);
      case Some(target) =>
        if t[e].kind.BlockStatement? {
          UnwrapLiftsBlock(t, i);
        } else {
          UnwrapLiftsStatement(t, i);
        }
        assert ElseBranch(r, i).None?;
  }

  // ---------------------------------------------------------------------------------------
  // The whole fix

  /** `applyFix` on values: invert the `if`; if the new then-branch is a braced block, make sure
      its last statement leaves the method, inserting `return;` before the closing brace when
      the method is `void` and giving up otherwise; then unwrap the else-branch. */
  ghost function FixedTree(t: Tree, i: nat, m: nat): (r: Tree)
    requires WellFormed(t) && i < |t| && t[i].kind.IfStatement? && m < |t| && t[m].kind.Method?
    ensures WellFormed(r) && (|r| == |t| || |r| == |t| + 1)
  {
    var t1 := Inverted(t, i);
    var thenBranch := ThenBranch(t1, i);
    if thenBranch.None? || !t1[thenBranch.value].kind.BlockStatement? then t1
    else
      var b := CodeBlockOf(t1, thenBranch.value);
      var last := LastStatementInBlock(t1, b);
      if last.Some? && IsTerminator(t1[last.value].kind) then Unwrapped(t1, i)
      else if !t1[m].kind.returnsVoid then t1
      else Unwrapped(AddedBefore(t1, b, ReturnStatement, LastChild(t1, b)), i)
  }

  /** The outcomes of `FixedTree`, one per exit of `applyFix`. */
  lemma FixedTreeCases(t: Tree, i: nat, m: nat)
    requires WellFormed(t) && i < |t| && t[i].kind.IfStatement? && m < |t| && t[m].kind.Method?
    ensures var t1 := Inverted(t, i);
      var thenBranch := ThenBranch(t1, i);
      thenBranch.None? || !t1[thenBranch.value].kind.BlockStatement? ==> FixedTree(t, i, m) == t1
    ensures var t1 := Inverted(t, i);
      var thenBranch := ThenBranch(t1, i);
      thenBranch.Some? && t1[thenBranch.value].kind.BlockStatement? ==>
      var b := CodeBlockOf(t1, thenBranch.value);
      var last := LastStatementInBlock(t1, b);
      if last.Some? && IsTerminator(t1[last.value].kind) then FixedTree(t, i, m) == Unwrapped(t1, i)
      else if !t1[m].kind.returnsVoid then FixedTree(t, i, m) == t1
      else FixedTree(t, i, m) == Unwrapped(AddedBefore(t1, b, ReturnStatement, LastChild(t1, b)), i)
  {
  }

  /** The last statement of a block is found from its children and their kinds alone. */
  lemma {:induction false} LastStatementIndexByKinds(t: Tree, u: Tree, xs: seq<nat>)
    requires forall j :: 0 <= j < |xs| ==> xs[j] < |t| && xs[j] < |u| && t[xs[j]].kind == u[xs[j]].kind
    ensures LastStatementIndex(t, xs) == LastStatementIndex(u, xs)
  {
    if xs != [] && !IsStatement(t[xs[|xs| - 1]].kind) {
      LastStatementIndexByKinds(t, u, xs[..|xs| - 1]);
    }
  }

  /** `return;` added before the last child of a block, when that child is not a statement
      (it is the closing brace), becomes the block's last statement. */
  lemma AddedReturnIsLast(t: Tree, b: nat)
    requires WellFormed(t) && b < |t| && t[b].kind.CodeBlock?
    requires LastChild(t, b).None? || !IsStatement(t[LastChild(t, b).value].kind)
    ensures var r := AddedBefore(t, b, ReturnStatement, LastChild(t, b));
      LastStatementInBlock(r, b) == Some(|t|)
  {
    var r := AddedBefore(t, b, ReturnStatement, LastChild(t, b));
    var ch := t[b].children;
    var ch' := r[b].children;
    var a := InsertPosition(ch, LastChild(t, b));
    assert a == |ch| || a == |ch| - 1;
    assert ch'[a] == |t| && IsStatement(r[|t|].kind);
    assert forall j :: a < j < |ch'| ==> ch'[j] == ch[|ch| - 1];
    if |ch| > 0 {
      assert r[ch[|ch| - 1]] == t[ch[|ch| - 1]];
    }
    var k := LastStatementIndex(r, ch');
    assert k == a;
  }

  /** Two trees that agree on a block's children and on their kinds agree on its last
      statement. */
  lemma LastStatementInBlockFrame(t: Tree, u: Tree, b: nat)
    requires WellFormed(t) && WellFormed(u) && b < |t| && b < |u| && u[b].children == t[b].children
    requires forall j :: 0 <= j < |t[b].children| ==> u[t[b].children[j]].kind == t[t[b].children[j]].kind
    ensures LastStatementInBlock(u, b) == LastStatementInBlock(t, b)
  {
    LastStatementIndexByKinds(t, u, t[b].children);
  }

  /** Inverting the `if` changes nothing inside the blocks of its branches. */
  lemma InvertedKeepsBlock(t: Tree, i: nat, b: nat)
    requires WellFormed(t) && i < |t| && t[i].kind.IfStatement? && i < b < |t|
    ensures var t1 := Inverted(t, i);
      t1[b] == t[b] && LastStatementInBlock(t1, b) == LastStatementInBlock(t, b) &&
      LastChild(t1, b) == LastChild(t, b)
  {
    var t1 := Inverted(t, i);
    forall j | 0 <= j < |t[b].children| ensures t1[t[b].children[j]].kind == t[t[b].children[j]].kind {
      assert t[t[b].children[j]].parent == Some(b);
    }
    LastStatementInBlockFrame(t, t1, b);
  }

  /** The then-block after inversion is the old else-block. */
  lemma InvertedThenBlock(t: Tree, i: nat)
    requires WellFormed(t) && i < |t| && t[i].kind.IfStatement?
    requires ElseBranch(t, i).Some? && t[ElseBranch(t, i).value].kind.BlockStatement?
    ensures var t1 := Inverted(t, i);
      var e := ElseBranch(t, i).value;
      ThenBranch(t1, i) == Some(e) && t1[e] == t[e] && CodeBlockOf(t1, e) == CodeBlockOf(t, e) &&
      i < CodeBlockOf(t, e)
  {
  }

  /** In a method that is not `void`, a then-block (formerly the else-block) that does not
      end in `return` or `throw` makes the fix stop after the inversion: the branches have
      swapped and nothing is unwrapped. */
  lemma FixDeclinesNonVoid(t: Tree, i: nat, m: nat)
    requires WellFormed(t) && i < |t| && t[i].kind.IfStatement? && m < |t| && t[m].kind.Method?
    requires !t[m].kind.returnsVoid
    requires ElseBranch(t, i).Some? && t[ElseBranch(t, i).value].kind.BlockStatement?
    requires var last := LastStatementInBlock(t, CodeBlockOf(t, ElseBranch(t, i).value));
      last.None? || !IsTerminator(t[last.value].kind)
    ensures FixedTree(t, i, m) == Inverted(t, i)
    ensures ThenBranch(FixedTree(t, i, m), i) == ElseBranch(t, i)
    ensures ElseBranch(FixedTree(t, i, m), i) == ThenBranch(t, i)
  {
    var e := ElseBranch(t, i).value;
    InvertedThenBlock(t, i);
    InvertedKeepsBlock(t, i, CodeBlockOf(t, e));
    assert m != i;
  }

  /** A then-block (formerly the else-block) that already ends in `return` or `throw` gets no
      new statement: the fix is inversion followed by the unwrap, and the node count stays. */
  lemma FixOfTerminatedBlock(t: Tree, i: nat, m: nat)
    requires WellFormed(t) && i < |t| && t[i].kind.IfStatement? && m < |t| && t[m].kind.Method?
    requires ElseBranch(t, i).Some? && t[ElseBranch(t, i).value].kind.BlockStatement?
    requires var last := LastStatementInBlock(t, CodeBlockOf(t, ElseBranch(t, i).value));
      last.Some? && IsTerminator(t[last.value].kind)
    ensures FixedTree(t, i, m) == Unwrapped(Inverted(t, i), i)
    ensures |FixedTree(t, i, m)| == |t|
  {
    var e := ElseBranch(t, i).value;
    var b := CodeBlockOf(t, e);
    InvertedThenBlock(t, i);
    InvertedKeepsBlock(t, i, b);
    var last := LastStatementInBlock(t, b).value;
    assert last in t[b].children;
    assert t[last].parent == Some(b);
    assert Inverted(t, i)[last] == t[last];
  }

  /** The unwrap leaves the then-branch's block, its children and so its last statement as
      they were. */
  lemma UnwrapKeepsThenBlock(t: Tree, i: nat)
    requires WellFormed(t) && i < |t| && t[i].kind.IfStatement?
    requires ThenBranch(t, i).Some? && t[ThenBranch(t, i).value].kind.BlockStatement?
    ensures var r := Unwrapped(t, i);
      var b := CodeBlockOf(t, ThenBranch(t, i).value);
      r[b] == t[b] && (forall c :: c in t[b].children ==> r[c] == t[c]) &&
      LastStatementInBlock(r, b) == LastStatementInBlock(t, b)
  {
    var r := Unwrapped(t, i);
    var th := ThenBranch(t, i).value;
    var b := CodeBlockOf(t, th);
    UnwrapFrame(t, i);
    assert Anchor(t, i) <= i;
    assert !UnwrapTouches(t, i, b);
    forall c | c in t[b].children ensures r[c] == t[c] {
      assert t[c].parent == Some(b);
      assert !UnwrapTouches(t, i, c);
    }
    LastStatementInBlockFrame(t, r, b);
  }

  /** The tree `applyFix` hands to the unwrap in a `void` method whose new then-block does not
      end in `return` or `throw`: inverted, with `return;` added to that block. */
  lemma FixWithReturnPrepared(t: Tree, i: nat, m: nat)
    requires WellFormed(t) && i < |t| && t[i].kind.IfStatement? && m < |t| && t[m].kind.Method?
    requires t[m].kind.returnsVoid
    requires ElseBranch(t, i).Some? && t[ElseBranch(t, i).value].kind.BlockStatement?
    requires var last := LastStatementInBlock(t, CodeBlockOf(t, ElseBranch(t, i).value));
      last.None? || !IsTerminator(t[last.value].kind)
    ensures var e := ElseBranch(t, i).value;
      var b := CodeBlockOf(t, e);
      var t1 := Inverted(t, i);
      var t2 := AddedBefore(t1, b, ReturnStatement, LastChild(t1, b));
      FixedTree(t, i, m) == Unwrapped(t2, i) &&
      ThenBranch(t2, i) == Some(e) && t2[e].kind.BlockStatement? && CodeBlockOf(t2, e) == b &&
      t2[i] == t1[i] && (forall n :: 0 <= n < |t| && n != i && n != b ==> t2[n] == t[n])
  {
    FixWithReturnUnfolds(t, i, m);
    FixWithReturnTree(t, i);
  }

  lemma FixWithReturnUnfolds(t: Tree, i: nat, m: nat)
    requires WellFormed(t) && i < |t| && t[i].kind.IfStatement? && m < |t| && t[m].kind.Method?
    requires t[m].kind.returnsVoid
    requires ElseBranch(t, i).Some? && t[ElseBranch(t, i).value].kind.BlockStatement?
    requires var last := LastStatementInBlock(t, CodeBlockOf(t, ElseBranch(t, i).value));
      last.None? || !IsTerminator(t[last.value].kind)
    ensures var e := ElseBranch(t, i).value;
      var b := CodeBlockOf(t, e);
      var t1 := Inverted(t, i);
      FixedTree(t, i, m) == Unwrapped(AddedBefore(t1, b, ReturnStatement, LastChild(t1, b)), i)
  {
    var e := ElseBranch(t, i).value;
    var b := CodeBlockOf(t, e);
    var t1 := Inverted(t, i);
    InvertedThenBlock(t, i);
    InvertedKeepsBlock(t, i, b);
    assert t1[m] == t[m];
  }

  lemma FixWithReturnTree(t: Tree, i: nat)
    requires WellFormed(t) && i < |t| && t[i].kind.IfStatement?
    requires ElseBranch(t, i).Some? && t[ElseBranch(t, i).value].kind.BlockStatement?
    ensures var e := ElseBranch(t, i).value;
      var b := CodeBlockOf(t, e);
      var t1 := Inverted(t, i);
      var t2 := AddedBefore(t1, b, ReturnStatement, LastChild(t1, b));
      ThenBranch(t2, i) == Some(e) && t2[e].kind.BlockStatement? && CodeBlockOf(t2, e) == b &&
      t2[i] == t1[i] && (forall n :: 0 <= n < |t| && n != i && n != b ==> t2[n] == t[n])
  {
    var e := ElseBranch(t, i).value;
    var b := CodeBlockOf(t, e);
    InvertedThenBlock(t, i);
  }

  /** In a `void` method, a then-block (formerly the else-block) that does not end in
      `return` or `throw` gets a fresh `return;` before its closing brace, which becomes its
      last statement, and the unwrap leaves that block alone. */
  lemma FixInsertsReturn(t: Tree, i: nat, m: nat)
    requires WellFormed(t) && i < |t| && t[i].kind.IfStatement? && m < |t| && t[m].kind.Method?
    requires t[m].kind.returnsVoid
    requires ElseBranch(t, i).Some? && t[ElseBranch(t, i).value].kind.BlockStatement?
    requires var b := CodeBlockOf(t, ElseBranch(t, i).value);
      var last := LastStatementInBlock(t, b);
      (last.None? || !IsTerminator(t[last.value].kind)) &&
      (LastChild(t, b).None? || !IsStatement(t[LastChild(t, b).value].kind))
    ensures var r := FixedTree(t, i, m);
      var b := CodeBlockOf(t, ElseBranch(t, i).value);
      |r| == |t| + 1 && r[|t|] == Node(ReturnStatement, Some(b), []) &&
      LastStatementInBlock(r, b) == Some(|t|)
  {
    var e := ElseBranch(t, i).value;
    var b := CodeBlockOf(t, e);
    var t1 := Inverted(t, i);
    InvertedKeepsBlock(t, i, b);
    var t2 := AddedBefore(t1, b, ReturnStatement, LastChild(t1, b));
    AddedReturnIsLast(t1, b);
    FixWithReturnPrepared(t, i, m);
    UnwrapKeepsThenBlock(t2, i);
    assert |t| in t2[b].children;
  }

  /** The `return;` of `FixInsertsReturn` goes in before the block's last child, its closing
      brace, or at the end when the block has no children; the block is otherwise unchanged. */
  lemma FixReturnPlacement(t: Tree, i: nat, m: nat, b: nat)
    requires WellFormed(t) && i < |t| && t[i].kind.IfStatement? && m < |t| && t[m].kind.Method?
    requires t[m].kind.returnsVoid
    requires ElseBranch(t, i).Some? && t[ElseBranch(t, i).value].kind.BlockStatement?
    requires b == CodeBlockOf(t, ElseBranch(t, i).value)
    requires var last := LastStatementInBlock(t, b);
      (last.None? || !IsTerminator(t[last.value].kind)) &&
      (LastChild(t, b).None? || !IsStatement(t[LastChild(t, b).value].kind))
    ensures var r := FixedTree(t, i, m);
      var ch := t[b].children;
      var a := InsertPosition(ch, LastChild(t, b));
      b < |r| && r[b].kind == t[b].kind && r[b].parent == t[b].parent &&
      r[b].children == ch[..a] + [|t|] + ch[a..]
  {
    var e := ElseBranch(t, i).value;
    var t1 := Inverted(t, i);
    InvertedKeepsBlock(t, i, b);
    var t2 := AddedBefore(t1, b, ReturnStatement, LastChild(t1, b));
    FixWithReturnPrepared(t, i, m);
    UnwrapKeepsThenBlock(t2, i);
  }

  /** The nodes the whole fix may change: the `if`, the new then-block (which may gain a
      `return;`), and what the unwrap of the inverted `if` touches: the anchor's parent, the new
      else-branch and the two levels below it. */
  ghost predicate FixTouches(t: Tree, i: nat, n: nat)
    requires WellFormed(t) && i < |t| && t[i].kind.IfStatement? && n < |t|
  {
    var t1 := Inverted(t, i);
    n == i || UnwrapTouches(t1, i, n) ||
    (ThenBranch(t1, i).Some? && t1[ThenBranch(t1, i).value].kind.BlockStatement? &&
     n == CodeBlockOf(t1, ThenBranch(t1, i).value))
  }

  /** The anchor depends only on the parents and kinds of the nodes up to it. */
  lemma {:induction false} AnchorByParents(t: Tree, u: Tree, s: nat)
    requires WellFormed(t) && WellFormed(u) && s < |t| <= |u|
    requires forall n {:trigger u[n]} :: 0 <= n <= s ==> u[n].parent == t[n].parent && u[n].kind == t[n].kind
    ensures Anchor(u, s) == Anchor(t, s)
    decreases s
  {
    match t[s].parent
    case None =>
    case Some(p) =>
      if t[p].kind.IfStatement? {
        AnchorByParents(t, u, p);
      }
  }

  /** Adding a `return;` to the then-block adds no node of the old tree to those the unwrap
      touches, besides that block. */
  lemma AddedTouchesNoMore(t: Tree, i: nat, b: nat, n: nat)
    requires WellFormed(t) && i < |t| && t[i].kind.IfStatement?
    requires ThenBranch(t, i).Some? && t[ThenBranch(t, i).value].kind.BlockStatement?
    requires b == CodeBlockOf(t, ThenBranch(t, i).value) && n < |t| && n != b
    requires !UnwrapTouches(t, i, n)
    ensures var t2 := AddedBefore(t, b, ReturnStatement, LastChild(t, b));
      t2[n] == t[n] && !UnwrapTouches(t2, i, n)
  {
    var t2 := AddedBefore(t, b, ReturnStatement, LastChild(t, b));
    assert i < b;
    assert t2[i] == t[i];
    AnchorByParents(t, t2, i);
    if t[n].parent.Some? {
      assert t2[t[n].parent.value].parent == t[t[n].parent.value].parent;
    }
  }

  /** Every node outside `FixTouches` keeps its parent, kind and children through the fix. */
  lemma FixFrame(t: Tree, i: nat, m: nat)
    requires WellFormed(t) && i < |t| && t[i].kind.IfStatement? && m < |t| && t[m].kind.Method?
    ensures var r := FixedTree(t, i, m);
      forall n {:trigger r[n]} :: 0 <= n < |t| && !FixTouches(t, i, n) ==> r[n] == t[n]
  {
    var r := FixedTree(t, i, m);
    var t1 := Inverted(t, i);
    FixedTreeCases(t, i, m);
    var th := ThenBranch(t1, i);
    if th.None? || !t1[th.value].kind.BlockStatement? {
    } else {
      var b := CodeBlockOf(t1, th.value);
      var last := LastStatementInBlock(t1, b);
      if last.Some? && IsTerminator(t1[last.value].kind) {
        UnwrapFrame(t1, i);
      } else if !t1[m].kind.returnsVoid {
      } else {
        var t2 := AddedBefore(t1, b, ReturnStatement, LastChild(t1, b));
        UnwrapFrame(t2, i);
        forall n | 0 <= n < |t| && !FixTouches(t, i, n) ensures r[n] == t[n] {
          AddedTouchesNoMore(t1, i, b, n);
        }
      }
    }
  }

  /** The unwrap of an `if` directly inside a code block, with a braced else-branch: the `if`
      is its own anchor, so the else-block's inner elements follow it in that code block. */
  lemma UnwrapInCodeBlock(t: Tree, i: nat)
    requires WellFormed(t) && i < |t| && t[i].kind.IfStatement?
    requires t[i].parent.Some? && t[t[i].parent.value].kind.CodeBlock?
    requires ElseBranch(t, i).Some? && t[ElseBranch(t, i).value].kind.BlockStatement?
    ensures var r := Unwrapped(t, i);
      var pb := t[i].parent.value;
      var e := ElseBranch(t, i).value;
      r[pb].children == InsertedAfter(t[pb].children, i, Inner(t, CodeBlockOf(t, e))) &&
      r[i].children == [t[i].children[0]] && r[i].kind == t[i].kind && r[e].parent.None?
  {
    assert Anchor(t, i) == i;
    UnwrapLiftsBlock(t, i);
  }

  /** The unwrap step of the fix on a reported `if`, for any tree `t2` the earlier steps may
      hand it: one that carries the inverted `if` and leaves the method body, the old
      then-branch and its block untouched. */
  lemma UnwrapOfReported(t: Tree, i: nat, t2: Tree)
    requires WellFormed(t) && i < |t| && t[i].kind.IfStatement? && Reported(t, i)
    requires WellFormed(t2) && |t| <= |t2| && t2[i] == Inverted(t, i)[i]
    requires var th := ThenBranch(t, i).value;
      t2[t[i].parent.value] == t[t[i].parent.value] && t2[th] == t[th] &&
      t2[ThenBlock(t, i)] == t[ThenBlock(t, i)]
    ensures var r := Unwrapped(t2, i);
      var pb := t[i].parent.value;
      var th := ThenBranch(t, i).value;
      var e := ElseBranch(t, i).value;
      r[i].kind == IfStatement(Negated(t[i].kind.condition)) &&
      r[i].children == [e] && ElseBranch(r, i).None? &&
      r[pb].children == InsertedAfter(t[pb].children, i, Inner(t, ThenBlock(t, i))) &&
      r[th].parent.None?
  {
    PreparedOfReported(t, i, t2);
    UnwrapInCodeBlock(t2, i);
  }

  /** What the unwrap finds in such a tree `t2`: the old then-branch, still braced, in the else
      slot, and the `if` still directly inside the method body. */
  lemma PreparedOfReported(t: Tree, i: nat, t2: Tree)
    requires WellFormed(t) && i < |t| && t[i].kind.IfStatement? && Reported(t, i)
    requires WellFormed(t2) && |t| <= |t2| && t2[i] == Inverted(t, i)[i]
    requires var th := ThenBranch(t, i).value;
      t2[t[i].parent.value] == t[t[i].parent.value] && t2[th] == t[th] &&
      t2[ThenBlock(t, i)] == t[ThenBlock(t, i)]
    ensures var th := ThenBranch(t, i).value;
      var pb := t[i].parent.value;
      t2[i].kind == IfStatement(Negated(t[i].kind.condition)) &&
      t2[i].children == [ElseBranch(t, i).value, th] &&
      t2[i].parent == Some(pb) && t2[pb].kind.CodeBlock? &&
      ElseBranch(t2, i) == Some(th) && t2[th].kind.BlockStatement? &&
      CodeBlockOf(t2, th) == ThenBlock(t, i) && Inner(t2, ThenBlock(t, i)) == Inner(t, ThenBlock(t, i))
  {
    InvertedThenBlock(t, i);
  }

  /** The fix on a reported `if` whose new then-block already ends in `return` or `throw`, or
      sits in a `void` method: the condition is negated, the old else-branch becomes the only
      branch, and the elements between the braces of the old then-block follow the `if`, in
      order, in the method body; the old then-branch is detached. */
  lemma FixOfReportedIf(t: Tree, i: nat, m: nat)
    requires WellFormed(t) && i < |t| && t[i].kind.IfStatement? && Reported(t, i)
    requires m == EnclosingMethod(t, i)
    requires var last := LastStatementInBlock(t, ElseBlock(t, i));
      (last.Some? && IsTerminator(t[last.value].kind)) || t[m].kind.returnsVoid
    ensures var r := FixedTree(t, i, m);
      var pb := t[i].parent.value;
      var th := ThenBranch(t, i).value;
      var e := ElseBranch(t, i).value;
      r[i].kind == IfStatement(Negated(t[i].kind.condition)) &&
      r[i].children == [e] && ElseBranch(r, i).None? &&
      r[pb].children == InsertedAfter(t[pb].children, i, Inner(t, ThenBlock(t, i))) &&
      r[th].parent.None?
  {
    var b := ElseBlock(t, i);
    var t1 := Inverted(t, i);
    var last := LastStatementInBlock(t, b);
    InvertedThenBlock(t, i);
    if last.Some? && IsTerminator(t[last.value].kind) {
      FixOfTerminatedBlock(t, i, m);
      UnwrapOfReported(t, i, t1);
    } else {
      FixWithReturnPrepared(t, i, m);
      UnwrapOfReported(t, i, AddedBefore(t1, b, ReturnStatement, LastChild(t1, b)));
    }
  }

  // ---------------------------------------------------------------------------------------
  // The quick fix object

  /** The fix registered with a problem: the reported `if` and the method around it. */
  class SaneIfElseQuickFix {
    const ifStatement: nat
    const enclosingMethod: nat

    constructor (ifStatement: nat, enclosingMethod: nat)
      ensures this.ifStatement == ifStatement && this.enclosingMethod == enclosingMethod
    {
      this.ifStatement := ifStatement;
      this.enclosingMethod := enclosingMethod;
    }

    /** The fix's `if` and method are elements of the tree it is applied to. */
    ghost predicate BoundTo(tree: PsiTree): (b: bool)
      reads tree
      ensures b ==> WellFormed(tree.nodes) && ifStatement != enclosingMethod
    {
      tree.Valid() && ifStatement < |tree.nodes| && tree.nodes[ifStatement].kind.IfStatement? &&
      enclosingMethod < |tree.nodes| && tree.nodes[enclosingMethod].kind.Method?
    }

    /** `applyFix`. */
    method ApplyFix(tree: PsiTree)
      requires BoundTo(tree)
      modifies tree
      ensures BoundTo(tree)
      ensures tree.nodes == FixedTree(old(tree.nodes), ifStatement, enclosingMethod)
    {
      ghost var t := tree.nodes;
      FixedTreeCases(t, ifStatement, enclosingMethod);
      InvertIfCondition(tree, ifStatement);
      ghost var t1 := tree.nodes;
      var thenBranch := ThenBranch(tree.nodes, ifStatement);
      if !(thenBranch.Some? && tree.nodes[thenBranch.value].kind.BlockStatement?) {
        return;
      }
      var thenBlock := CodeBlockOf(tree.nodes, thenBranch.value);
      var last := LastStatementInBlock(tree.nodes, thenBlock);
      if !(last.Some? && IsTerminator(tree.nodes[last.value].kind)) {
        if !tree.nodes[enclosingMethod].kind.returnsVoid {
          return;
        }
        var _ := tree.AddBefore(thenBlock, ReturnStatement, LastChild(tree.nodes, thenBlock));
        assert tree.nodes[ifStatement] == t1[ifStatement];
      }
      UnwrapRedundantElse(tree);
    }

    /** `unwrapRedundantElse`: climb to the topmost `if` above the fix's `if`, then lift the
        else-branch (or, when braced, what lies between its braces) out after it. */
    method UnwrapRedundantElse(tree: PsiTree)
      requires BoundTo(tree)
      modifies tree
      ensures BoundTo(tree)
      ensures tree.nodes == Unwrapped(old(tree.nodes), ifStatement)
    {
      var elseBranch := ElseBranch(tree.nodes, ifStatement);
      if elseBranch.None? {
        return;
      }
      var e := elseBranch.value;
      var anchor, parent := TopmostIf(tree.nodes, ifStatement);
      if !tree.nodes[e].kind.BlockStatement? {
        if parent.None? {
          return;
        }
        LiftStatementOut(tree, ifStatement, e, parent.value, anchor);
      } else {
        var elseBlock := CodeBlockOf(tree.nodes, e);
        if |tree.nodes[elseBlock].children| > 2 {
          if parent.None? {
            return;
          }
          LiftBlockOut(tree, ifStatement, e, parent.value, anchor);
        } else {
          tree.Delete(e);
          if parent.Some? {
            UnwrapTargetFacts(old(tree.nodes), ifStatement);
            LiftedBlockEmptyIsDelete(old(tree.nodes), ifStatement, e, parent.value);
          }
        }
      }
    }
  }

  /** The `for` loop of `unwrapRedundantElse`: from the `if`, climb while the parent is an
      `if`; the last `if` reached is the anchor and its parent receives the lifted elements. */
  method TopmostIf(t: Tree, i: nat) returns (anchor: nat, parent: Option<nat>)
    requires WellFormed(t) && i < |t|
    ensures anchor == Anchor(t, i) && parent == UnwrapTarget(t, i)
  {
    anchor := i;
    parent := t[i].parent;
    while parent.Some? && t[parent.value].kind.IfStatement?
      invariant anchor < |t| && parent == t[anchor].parent
      invariant Anchor(t, anchor) == Anchor(t, i)
      decreases anchor
    {
      anchor := parent.value;
      parent := t[anchor].parent;
    }
  }

  /** `children[1]` and `children[length - 2]` of a code block with more than two children are
      at positions 1 and `length - 2`, and every child has a larger id than any node `target`
      above the block. */
  lemma UnwrapRangeArguments(t: Tree, b: nat, target: nat)
    requires WellFormed(t) && b < |t| && |t[b].children| > 2 && target < b
    ensures var ch := t[b].children;
      t[ch[1]].parent == Some(b) && t[ch[|ch| - 2]].parent == Some(b) &&
      SiblingIndex(t, ch[1]) == 1 && SiblingIndex(t, ch[|ch| - 2]) == |ch| - 2 &&
      (forall k :: 1 <= k <= |ch| - 2 ==> target < t[t[ch[1]].parent.value].children[k])
  {
    var ch := t[b].children;
    IndexOfDistinct(ch, 1);
    IndexOfDistinct(ch, |ch| - 2);
    forall k | 1 <= k <= |ch| - 2 ensures target < ch[k] {
      assert t[ch[k]].parent == Some(b);
    }
  }

  /** The unbraced case: `parent.addAfter(elseBranch, anchor)`. */
  method LiftStatementOut(tree: PsiTree, i: nat, e: nat, target: nat, anchor: nat)
    requires tree.Valid() && i < |tree.nodes| && tree.nodes[i].kind.IfStatement?
    requires ElseBranch(tree.nodes, i) == Some(e) && !tree.nodes[e].kind.BlockStatement?
    requires anchor == Anchor(tree.nodes, i) && UnwrapTarget(tree.nodes, i) == Some(target)
    modifies tree
    ensures tree.Valid()
    ensures tree.nodes == Unwrapped(old(tree.nodes), i)
  {
    ghost var t := tree.nodes;
    UnwrapTargetFacts(t, i);
    assert NodeShaped(t, i);
    IndexOfDistinct(t[i].children, 1);
    assert SiblingIndex(t, e) == 1;
    tree.AddAfter(target, e, anchor);
    UnwrapOfStatement(t, i, e, target);
  }

  /** The unwrap of an unbraced else-branch, when the anchor has a parent. */
  lemma UnwrapOfStatement(t: Tree, i: nat, e: nat, target: nat)
    requires WellFormed(t) && i < |t| && t[i].kind.IfStatement? && ElseBranch(t, i) == Some(e)
    requires !t[e].kind.BlockStatement?
    requires UnwrapTarget(t, i) == Some(target)
    requires target < Anchor(t, i) <= i && Anchor(t, i) in t[target].children
    requires !t[target].kind.IfStatement? && !t[target].kind.BlockStatement?
    ensures Unwrapped(t, i) == MovedRangeAfter(t, i, 1, 2, target, Anchor(t, i))
  {
    assert Unwrapped(t, i) == LiftedStatement(t, i, e, target);
  }

  /** The braced case with something between the braces:
      `parent.addRangeAfter(children[1], children[length - 2], anchor)` and then
      `elseBranch.delete()`. */
  method LiftBlockOut(tree: PsiTree, i: nat, e: nat, target: nat, anchor: nat)
    requires tree.Valid() && i < |tree.nodes| && tree.nodes[i].kind.IfStatement?
    requires ElseBranch(tree.nodes, i) == Some(e) && tree.nodes[e].kind.BlockStatement?
    requires |tree.nodes[CodeBlockOf(tree.nodes, e)].children| > 2
    requires anchor == Anchor(tree.nodes, i) && UnwrapTarget(tree.nodes, i) == Some(target)
    modifies tree
    ensures tree.Valid()
    ensures tree.nodes == Unwrapped(old(tree.nodes), i)
  {
    ghost var t := tree.nodes;
    UnwrapTargetFacts(t, i);
    var elseBlock := CodeBlockOf(tree.nodes, e);
    var children := tree.nodes[elseBlock].children;
    UnwrapRangeArguments(t, elseBlock, target);
    tree.AddRangeAfter(target, children[1], children[|children| - 2], anchor);
    ghost var t1 := tree.nodes;
    assert t1 == MovedUnwrapRange(t, elseBlock, target, anchor);
    LiftedBlockStep(t, i, e, target, t1);
    tree.Delete(e);
    UnwrapOfBlockWithInner(t, i, e, target);
  }

  /** The unwrap of a braced else-branch, when the anchor has a parent. */
  lemma UnwrapOfBlockWithInner(t: Tree, i: nat, e: nat, target: nat)
    requires WellFormed(t) && i < |t| && t[i].kind.IfStatement? && ElseBranch(t, i) == Some(e)
    requires t[e].kind.BlockStatement? && |t[CodeBlockOf(t, e)].children| > 2
    requires UnwrapTarget(t, i) == Some(target)
    requires target < Anchor(t, i) <= i && Anchor(t, i) in t[target].children
    requires !t[target].kind.IfStatement? && !t[target].kind.BlockStatement?
    ensures Unwrapped(t, i) == LiftedBlock(t, i, e, target)
  {
  }
}
