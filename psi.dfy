/** A model of the part of IntelliJ's Java syntax tree (PSI) that the sane-if-else inspection
    reads and edits: an arena of nodes addressed by index, each with a kind, a parent link and an
    ordered list of children. Tokens (braces), whitespace and comments are children like any
    other element, exactly as `getChildren()` and sibling navigation see them. */
module Psi {

  datatype Option<T> = None | Some(value: T)

  /** An `if` condition. Inverting a condition is abstract: it wraps it in a negation. */
  datatype Condition = Atom(id: nat) | Negated(inner: Condition)

  /** The element kinds the inspection distinguishes. `CodeBlock` carries the number of text
      lines of its rendering; `Method` records whether its declared return type is `void`
      (a constructor, whose return type is null, counts as not void). */
  datatype Kind =
    | Method(returnsVoid: bool)
    | CodeBlock(lines: nat)
    | BlockStatement
    | IfStatement(condition: Condition)
    | ReturnStatement
    | ThrowStatement
    | OtherStatement
    | LBrace
    | RBrace
    | Whitespace
    | OtherElement

  /** `PsiStatement` and its subclasses. */
  predicate IsStatement(k: Kind): (b: bool)
    ensures b <==> !(k.Method? || k.CodeBlock? || k.LBrace? || k.RBrace? || k.Whitespace? || k.OtherElement?)
  {
    k.BlockStatement? || k.IfStatement? || k.ReturnStatement? || k.ThrowStatement? || k.OtherStatement?
  }

  datatype Node = Node(kind: Kind, parent: Option<nat>, children: seq<nat>)

  /** Node `n` of the tree is `t[n]`. A node with no parent is a root or has been deleted. */
  type Tree = seq<Node>

  // ---------------------------------------------------------------------------------------
  // Sequences of node ids

  predicate Distinct(xs: seq<nat>) {
    forall j, k :: 0 <= j < k < |xs| ==> xs[j] != xs[k]
  }

  function IndexOf(xs: seq<nat>, x: nat): (k: nat)
    requires x in xs
    ensures k < |xs| && xs[k] == x
    ensures forall j :: 0 <= j < k ==> xs[j] != x
  {
    if xs[0] == x then 0 else 1 + IndexOf(xs[1..], x)
  }

  lemma IndexOfDistinct(xs: seq<nat>, k: nat)
    requires Distinct(xs) && k < |xs|
    ensures IndexOf(xs, xs[k]) == k
  {
  }

  /** `xs` with `ys` placed right after `anchor`. */
  function InsertedAfter(xs: seq<nat>, anchor: nat, ys: seq<nat>): (r: seq<nat>)
    requires anchor in xs
    ensures |r| == |xs| + |ys|
    ensures forall x :: x in r <==> x in xs || x in ys
  {
    var a := IndexOf(xs, anchor);
    assert xs == xs[..a + 1] + xs[a + 1..];
    xs[..a + 1] + ys + xs[a + 1..]
  }

  lemma InsertedNothing(xs: seq<nat>, anchor: nat)
    requires anchor in xs
    ensures InsertedAfter(xs, anchor, []) == xs
  {
    var a := IndexOf(xs, anchor);
    assert xs[..a + 1] + [] + xs[a + 1..] == xs;
  }

  /** `xs` without its element `x`. */
  function Removed(xs: seq<nat>, x: nat): (r: seq<nat>)
    requires x in xs && Distinct(xs)
    ensures |r| == |xs| - 1 && Distinct(r)
    ensures forall y :: y in r <==> y in xs && y != x
  {
    var a := IndexOf(xs, x);
    DistinctOutside(xs, a, a + 1);
    assert xs[a..a + 1] == [x];
    xs[..a] + xs[a + 1..]
  }

  lemma DistinctConcat(a: seq<nat>, b: seq<nat>)
    requires Distinct(a) && Distinct(b)
    requires forall x :: x in a ==> x !in b
    ensures Distinct(a + b)
  {
    forall j, k | 0 <= j < k < |a + b| ensures (a + b)[j] != (a + b)[k] {
      if k < |a| {
        assert (a + b)[j] == a[j] && (a + b)[k] == a[k];
      } else if j >= |a| {
        assert (a + b)[j] == b[j - |a|] && (a + b)[k] == b[k - |a|];
      } else {
        assert (a + b)[j] == a[j] && (a + b)[k] == b[k - |a|];
        assert a[j] in a && b[k - |a|] in b;
      }
    }
  }

  /** Cutting a slice out of a distinct sequence leaves a distinct sequence that shares no
      element with the slice. */
  lemma DistinctOutside(xs: seq<nat>, lo: nat, hi: nat)
    requires Distinct(xs) && lo <= hi <= |xs|
    ensures Distinct(xs[lo..hi])
    ensures Distinct(xs[..lo] + xs[hi..])
    ensures forall x :: x in xs[..lo] + xs[hi..] ==> x !in xs[lo..hi]
    ensures forall x :: x in xs <==> x in xs[..lo] + xs[hi..] || x in xs[lo..hi]
  {
    assert xs == xs[..lo] + xs[lo..hi] + xs[hi..];
    RestDistinct(xs, lo, hi);
    RestDisjoint(xs, lo, hi);
  }

  lemma RestDistinct(xs: seq<nat>, lo: nat, hi: nat)
    requires Distinct(xs) && lo <= hi <= |xs|
    ensures Distinct(xs[..lo] + xs[hi..])
  {
    var rest := xs[..lo] + xs[hi..];
    forall j, k | 0 <= j < k < |rest| ensures rest[j] != rest[k] {
      var j', k' := if j < lo then j else j + hi - lo, if k < lo then k else k + hi - lo;
      assert j' < k' && rest[j] == xs[j'] && rest[k] == xs[k'];
    }
  }

  lemma RestDisjoint(xs: seq<nat>, lo: nat, hi: nat)
    requires Distinct(xs) && lo <= hi <= |xs|
    ensures forall x :: x in xs[..lo] + xs[hi..] ==> x !in xs[lo..hi]
  {
    var rest := xs[..lo] + xs[hi..];
    forall x | x in rest ensures x !in xs[lo..hi] {
      var j :| 0 <= j < |rest| && rest[j] == x;
      var j' := if j < lo then j else j + hi - lo;
      assert rest[j] == xs[j'] && (j' < lo || hi <= j');
      forall k | lo <= k < hi ensures xs[k] != x {
        assert k != j';
      }
    }
  }

  lemma InsertedAfterDistinct(xs: seq<nat>, anchor: nat, ys: seq<nat>)
    requires anchor in xs && Distinct(xs) && Distinct(ys)
    requires forall y :: y in ys ==> y !in xs
    ensures Distinct(InsertedAfter(xs, anchor, ys))
  {
    var a := IndexOf(xs, anchor);
    DistinctOutside(xs, a + 1, a + 1);
    assert xs[..a + 1] + xs[a + 1..] == xs;
    assert xs[..a + 1] + xs[a + 1..a + 1] + xs[a + 1..] == xs;
    DistinctConcat(xs[..a + 1], ys);
    DistinctConcat(xs[..a + 1] + ys, xs[a + 1..]);
  }

  // ---------------------------------------------------------------------------------------
  // Well-formedness: the parent and child links agree, every parent has a smaller id than its
  // children (so every walk up the tree ends), and the statement kinds have their PSI shape.

  ghost predicate ParentsPrecede(t: Tree) {
    forall n {:trigger t[n].parent} :: 0 <= n < |t| && t[n].parent.Some? ==>
      t[n].parent.value < n && n in t[t[n].parent.value].children
  }

  ghost predicate ChildrenLinked(t: Tree) {
    forall n, j :: 0 <= n < |t| && 0 <= j < |t[n].children| ==>
      t[n].children[j] < |t| && t[t[n].children[j]].parent == Some(n)
  }

  ghost predicate ChildrenDistinct(t: Tree) {
    forall n :: 0 <= n < |t| ==> Distinct(t[n].children)
  }

  /** An `if` has a then-branch and at most an else-branch; a block statement wraps exactly one
      code block. */
  ghost predicate NodeShaped(t: Tree, n: nat)
    requires n < |t|
  {
    (t[n].kind.IfStatement? ==> |t[n].children| <= 2) &&
    (t[n].kind.BlockStatement? ==>
       |t[n].children| == 1 && t[n].children[0] < |t| && t[t[n].children[0]].kind.CodeBlock?)
  }

  ghost predicate Shaped(t: Tree) {
    forall n :: 0 <= n < |t| ==> NodeShaped(t, n)
  }

  ghost predicate WellFormed(t: Tree) {
    ParentsPrecede(t) && ChildrenLinked(t) && ChildrenDistinct(t) && Shaped(t)
  }

  // ---------------------------------------------------------------------------------------
  // Navigation

  /** `PsiIfStatement.getThenBranch()`. */
  function ThenBranch(t: Tree, i: nat): (r: Option<nat>)
    requires WellFormed(t) && i < |t|
    ensures r.Some? ==> i < r.value < |t| && t[r.value].parent == Some(i)
  {
    if |t[i].children| >= 1 then Some(t[i].children[0]) else None
  }

  /** `PsiIfStatement.getElseBranch()`. */
  function ElseBranch(t: Tree, i: nat): (r: Option<nat>)
    requires WellFormed(t) && i < |t|
    ensures r.Some? ==> i < r.value < |t| && t[r.value].parent == Some(i)
    ensures r.Some? ==> ThenBranch(t, i).Some? && ThenBranch(t, i) != r
  {
    if |t[i].children| >= 2 then Some(t[i].children[1]) else None
  }

  /** `PsiBlockStatement.getCodeBlock()`. */
  function CodeBlockOf(t: Tree, s: nat): (b: nat)
    requires WellFormed(t) && s < |t| && t[s].kind.BlockStatement?
    ensures b < |t| && t[b].kind.CodeBlock? && t[b].parent == Some(s) && s < b
  {
    assert NodeShaped(t, s);
    t[s].children[0]
  }

  /** `getLastChild()`. */
  function LastChild(t: Tree, n: nat): (r: Option<nat>)
    requires n < |t|
    ensures r.Some? ==> r.value in t[n].children
  {
    var ch := t[n].children;
    if |ch| == 0 then None else Some(ch[|ch| - 1])
  }

  /** Index of the first statement in `xs`, or `|xs|` when there is none. */
  function FirstStatementIndex(t: Tree, xs: seq<nat>): (k: nat)
    requires forall j :: 0 <= j < |xs| ==> xs[j] < |t|
    ensures k <= |xs|
    ensures k < |xs| ==> IsStatement(t[xs[k]].kind)
    ensures forall j :: 0 <= j < k ==> !IsStatement(t[xs[j]].kind)
  {
    if xs == [] then 0
    else if IsStatement(t[xs[0]].kind) then 0
    else 1 + FirstStatementIndex(t, xs[1..])
  }

  /** Index of the last statement in `xs`, or `-1` when there is none. */
  function LastStatementIndex(t: Tree, xs: seq<nat>): (k: int)
    requires forall j :: 0 <= j < |xs| ==> xs[j] < |t|
    ensures -1 <= k < |xs|
    ensures k >= 0 ==> IsStatement(t[xs[k]].kind)
    ensures forall j :: k < j < |xs| ==> !IsStatement(t[xs[j]].kind)
  {
    if xs == [] then -1
    else if IsStatement(t[xs[|xs| - 1]].kind) then |xs| - 1
    else LastStatementIndex(t, xs[..|xs| - 1])
  }

  /** Position of `n` among its siblings. */
  function SiblingIndex(t: Tree, n: nat): (k: nat)
    requires WellFormed(t) && n < |t| && t[n].parent.Some?
    ensures k < |t[t[n].parent.value].children| && t[t[n].parent.value].children[k] == n
  {
    IndexOf(t[t[n].parent.value].children, n)
  }

  /** No statement follows `n` among its siblings (vacuously so for a node without a parent). */
  ghost predicate NoStatementAfter(t: Tree, n: nat)
    requires WellFormed(t) && n < |t|
  {
    t[n].parent.Some? ==>
      var siblings := t[t[n].parent.value].children;
      forall j :: SiblingIndex(t, n) < j < |siblings| ==> !IsStatement(t[siblings[j]].kind)
  }

  /** `siblings[k]` is the first statement after `n` among its siblings. */
  ghost predicate FirstStatementAfter(t: Tree, n: nat, k: nat)
    requires WellFormed(t) && n < |t| && t[n].parent.Some?
  {
    var siblings := t[t[n].parent.value].children;
    SiblingIndex(t, n) < k < |siblings| && IsStatement(t[siblings[k]].kind) &&
    forall j :: SiblingIndex(t, n) < j < k ==> !IsStatement(t[siblings[j]].kind)
  }

  /** `PsiTreeUtil.getNextSiblingOfType(n, PsiStatement.class)`: the first later sibling of `n`
      that is a statement, skipping whitespace, comments and the closing brace. */
  function NextSiblingOfStatement(t: Tree, n: nat): (r: Option<nat>)
    requires WellFormed(t) && n < |t|
    ensures r.None? <==> NoStatementAfter(t, n)
    ensures r.Some? ==>
      t[n].parent.Some? &&
      exists k: nat :: FirstStatementAfter(t, n, k) && t[t[n].parent.value].children[k] == r.value
  {
    match t[n].parent
    case None => None
    case Some(p) =>
      var siblings := t[p].children;
      var a := SiblingIndex(t, n);
      var later := siblings[a + 1..];
      var k := FirstStatementIndex(t, later);
      assert forall j :: a < j < |siblings| ==> siblings[j] == later[j - a - 1];
      if k < |later| then
        assert siblings[a + 1 + k] == later[k];
        assert FirstStatementAfter(t, n, a + 1 + k);
        Some(later[k])
      else
        assert NoStatementAfter(t, n);
        None
  }

  /** `ControlFlowUtils.getLastStatementInBlock(b)`: the last child of `b` that is a statement. */
  function LastStatementInBlock(t: Tree, b: nat): (r: Option<nat>)
    requires WellFormed(t) && b < |t|
    ensures r.None? <==> forall j :: 0 <= j < |t[b].children| ==> !IsStatement(t[t[b].children[j]].kind)
    ensures r.Some? ==>
      r.value < |t| && IsStatement(t[r.value].kind) &&
      exists k :: 0 <= k < |t[b].children| && t[b].children[k] == r.value &&
        forall j :: k < j < |t[b].children| ==> !IsStatement(t[t[b].children[j]].kind)
  {
    var ch := t[b].children;
    var k := LastStatementIndex(t, ch);
    if k < 0 then None else Some(ch[k])
  }

  // ---------------------------------------------------------------------------------------
  // Edits. Each one keeps the tree well formed and says exactly which nodes it changes.

  /** Where `addBefore(_, anchor)` puts the new element: at the anchor's position, or at the
      end when the anchor is null. */
  function InsertPosition(xs: seq<nat>, anchor: Option<nat>): (a: nat)
    requires anchor.Some? ==> anchor.value in xs
    ensures a <= |xs|
    ensures anchor.Some? ==> a < |xs| && xs[a] == anchor.value
    ensures anchor.None? ==> a == |xs|
  {
    if anchor.Some? then IndexOf(xs, anchor.value) else |xs|
  }

  /** `b.addBefore(<new leaf of kind k>, anchor)`: a fresh node, numbered `|t|`, is inserted
      among the children of the code block `b` right before `anchor`, or at the end when the
      anchor is null. */
  function AddedBefore(t: Tree, b: nat, k: Kind, anchor: Option<nat>): (r: Tree)
    requires WellFormed(t) && b < |t| && t[b].kind.CodeBlock? && !k.BlockStatement?
    requires anchor.Some? ==> anchor.value in t[b].children
    ensures |r| == |t| + 1 && WellFormed(r)
    ensures r[|t|] == Node(k, Some(b), [])
    ensures var a := InsertPosition(t[b].children, anchor);
      r[b] == t[b].(children := t[b].children[..a] + [|t|] + t[b].children[a..])
    ensures forall n {:trigger r[n]} :: 0 <= n < |t| && n != b ==> r[n] == t[n]
  {
    var a := InsertPosition(t[b].children, anchor);
    var r := Appended(t, b, k, a);
    AddedBeforeWellFormed(t, r, b, k, a);
    r
  }

  /** The nodes of `AddedBefore`, before their well-formedness is proved. */
  function Appended(t: Tree, b: nat, k: Kind, a: nat): (r: Tree)
    requires WellFormed(t) && b < |t| && t[b].kind.CodeBlock? && !k.BlockStatement?
    requires a <= |t[b].children|
    ensures AddStep(t, r, b, k, a)
  {
    var ch := t[b].children;
    var r := t[b := t[b].(children := ch[..a] + [|t|] + ch[a..])] + [Node(k, Some(b), [])];
    assert forall n :: 0 <= n < |t| && n != b ==> r[n] == t[n];
    r
  }

  /** The relation between a tree `t` and the tree `r` that `AddedBefore` builds from it. */
  ghost predicate AddStep(t: Tree, r: Tree, b: nat, k: Kind, a: nat) {
    WellFormed(t) && b < |t| && t[b].kind.CodeBlock? && !k.BlockStatement? &&
    a <= |t[b].children| && |r| == |t| + 1 &&
    r[|t|] == Node(k, Some(b), []) &&
    r[b] == t[b].(children := t[b].children[..a] + [|t|] + t[b].children[a..]) &&
    (forall n {:trigger r[n]} :: 0 <= n < |t| && n != b ==> r[n] == t[n])
  }

  lemma AddedBeforeWellFormed(t: Tree, r: Tree, b: nat, k: Kind, a: nat)
    requires AddStep(t, r, b, k, a)
    ensures WellFormed(r)
  {
    var ch := t[b].children;
    assert ch == ch[..a] + ch[a..];
    assert forall x :: x in r[b].children <==> x in ch || x == |t|;
    AddedParents(t, r, b, k, a);
    AddedChildren(t, r, b, k, a);
    AddedDistinct(t, r, b, k, a);
    AddedShaped(t, r, b, k, a);
  }

  lemma AddedParents(t: Tree, r: Tree, b: nat, k: Kind, a: nat)
    requires AddStep(t, r, b, k, a)
    requires forall x :: x in r[b].children <==> x in t[b].children || x == |t|
    ensures ParentsPrecede(r)
  {
    forall n | 0 <= n < |r| && r[n].parent.Some?
      ensures r[n].parent.value < n && n in r[r[n].parent.value].children
    {
      if n < |t| {
        assert r[n].parent == t[n].parent;
        assert n in t[t[n].parent.value].children;
      }
    }
  }

  lemma AddedChildren(t: Tree, r: Tree, b: nat, k: Kind, a: nat)
    requires AddStep(t, r, b, k, a)
    requires forall x :: x in r[b].children <==> x in t[b].children || x == |t|
    ensures ChildrenLinked(r)
  {
    forall n, j | 0 <= n < |r| && 0 <= j < |r[n].children|
      ensures r[n].children[j] < |r| && r[r[n].children[j]].parent == Some(n)
    {
      var c := r[n].children[j];
      if n == b {
        if c != |t| {
          assert c in t[b].children;
          var jj :| 0 <= jj < |t[b].children| && t[b].children[jj] == c;
          assert c != b;
        }
      } else {
        assert n < |t| && r[n].children == t[n].children;
        assert t[c].parent == Some(n);
      }
    }
  }

  lemma AddedDistinct(t: Tree, r: Tree, b: nat, k: Kind, a: nat)
    requires AddStep(t, r, b, k, a)
    ensures ChildrenDistinct(r)
  {
    var ch := t[b].children;
    assert ch == ch[..a] + ch[a..];
    forall x | x in ch ensures x < |t| {
      var j :| 0 <= j < |ch| && ch[j] == x;
    }
    DistinctOutside(ch, a, a);
    assert ch[..a] + ch[a..] == ch;
    DistinctConcat(ch[..a], [|t|]);
    DistinctConcat(ch[..a] + [|t|], ch[a..]);
    forall n | 0 <= n < |r| ensures Distinct(r[n].children) {
      if n != b && n < |t| {
        assert r[n].children == t[n].children;
      }
    }
  }

  lemma AddedShaped(t: Tree, r: Tree, b: nat, k: Kind, a: nat)
    requires AddStep(t, r, b, k, a)
    ensures Shaped(r)
  {
    forall n | 0 <= n < |r| ensures NodeShaped(r, n) {
      if n < |t| && n != b {
        assert NodeShaped(t, n);
      }
    }
  }

  /** `target.addRangeAfter(first, last, anchor)` on the run `t[src].children[lo..hi]`, followed
      by the removal of the originals: the run leaves `src` and is placed, in order, right after
      `anchor` among the children of `target`. Every moved node has a larger id than `target`,
      which rules out moving a node below itself. */
  function MovedRangeAfter(t: Tree, src: nat, lo: nat, hi: nat, target: nat, anchor: nat): (r: Tree)
    requires WellFormed(t) && src < |t| && target < |t| && src != target
    requires lo <= hi <= |t[src].children|
    requires !t[src].kind.BlockStatement?
    requires !t[target].kind.IfStatement? && !t[target].kind.BlockStatement?
    requires anchor in t[target].children
    requires forall k :: lo <= k < hi ==> target < t[src].children[k]
    ensures |r| == |t| && WellFormed(r)
    ensures r[src] == t[src].(children := t[src].children[..lo] + t[src].children[hi..])
    ensures r[target] == t[target].(children := InsertedAfter(t[target].children, anchor, t[src].children[lo..hi]))
    ensures forall k :: lo <= k < hi ==> r[t[src].children[k]] == t[t[src].children[k]].(parent := Some(target))
    ensures forall n {:trigger r[n]} :: 0 <= n < |t| && n != src && n != target && n !in t[src].children[lo..hi] ==> r[n] == t[n]
    ensures forall n {:trigger r[n]} :: 0 <= n < |t| ==> r[n].kind == t[n].kind
  {
    var r := Relinked(t, src, lo, hi, target, anchor);
    MovedRangeAfterWellFormed(t, r, src, lo, hi, target, anchor);
    MovedEach(t, r, src, lo, hi, target, anchor);
    r
  }

  /** The nodes of `MovedRangeAfter`, before their well-formedness is proved. */
  function Relinked(t: Tree, src: nat, lo: nat, hi: nat, target: nat, anchor: nat): (r: Tree)
    requires WellFormed(t) && src < |t| && target < |t| && src != target
    requires lo <= hi <= |t[src].children|
    requires !t[src].kind.BlockStatement?
    requires !t[target].kind.IfStatement? && !t[target].kind.BlockStatement?
    requires anchor in t[target].children
    requires forall k :: lo <= k < hi ==> target < t[src].children[k]
    ensures MoveStep(t, r, src, lo, hi, target, anchor)
  {
    var ch := t[src].children;
    var moved := ch[lo..hi];
    var r := seq(|t|, n requires 0 <= n < |t| =>
      if n == src then t[n].(children := ch[..lo] + ch[hi..])
      else if n == target then t[n].(children := InsertedAfter(t[target].children, anchor, moved))
      else if n in moved then t[n].(parent := Some(target))
      else t[n]);
    MovedNodes(t, src, lo, hi);
    forall n | 0 <= n < |t| && n in moved ensures r[n] == t[n].(parent := Some(target)) {
      var k :| lo <= k < hi && ch[k] == n;
    }
    r
  }

  /** The relation between a tree `t` and the tree `r` that `MovedRangeAfter` builds from it. */
  ghost predicate MoveStep(t: Tree, r: Tree, src: nat, lo: nat, hi: nat, target: nat, anchor: nat) {
    WellFormed(t) && src < |t| && target < |t| && src != target &&
    lo <= hi <= |t[src].children| &&
    !t[src].kind.BlockStatement? &&
    !t[target].kind.IfStatement? && !t[target].kind.BlockStatement? &&
    anchor in t[target].children &&
    (forall k :: lo <= k < hi ==> target < t[src].children[k]) &&
    |r| == |t| &&
    r[src] == t[src].(children := t[src].children[..lo] + t[src].children[hi..]) &&
    r[target] == t[target].(children := InsertedAfter(t[target].children, anchor, t[src].children[lo..hi])) &&
    (forall n {:trigger r[n]} :: 0 <= n < |t| && n in t[src].children[lo..hi] ==> r[n] == t[n].(parent := Some(target))) &&
    (forall n {:trigger r[n]} :: 0 <= n < |t| && n != src && n != target && n !in t[src].children[lo..hi] ==> r[n] == t[n])
  }

  lemma MovedRangeAfterWellFormed(t: Tree, r: Tree, src: nat, lo: nat, hi: nat, target: nat, anchor: nat)
    requires MoveStep(t, r, src, lo, hi, target, anchor)
    ensures WellFormed(r)
  {
    MovedParents(t, r, src, lo, hi, target, anchor);
    MovedChildren(t, r, src, lo, hi, target, anchor);
    MovedDistinct(t, r, src, lo, hi, target, anchor);
    MovedShaped(t, r, src, lo, hi, target, anchor);
  }

  lemma MovedEach(t: Tree, r: Tree, src: nat, lo: nat, hi: nat, target: nat, anchor: nat)
    requires MoveStep(t, r, src, lo, hi, target, anchor)
    ensures forall k :: lo <= k < hi ==> r[t[src].children[k]] == t[t[src].children[k]].(parent := Some(target))
    ensures forall n {:trigger r[n]} :: 0 <= n < |t| ==> r[n].kind == t[n].kind
  {
    MovedNodes(t, src, lo, hi);
    forall k | lo <= k < hi ensures r[t[src].children[k]] == t[t[src].children[k]].(parent := Some(target)) {
      assert t[src].children[k] in t[src].children[lo..hi];
    }
  }

  lemma MovedNodes(t: Tree, src: nat, lo: nat, hi: nat)
    requires WellFormed(t) && src < |t| && lo <= hi <= |t[src].children|
    ensures forall x :: x in t[src].children[lo..hi] ==> x in t[src].children && src < x < |t| && t[x].parent == Some(src)
  {
    forall x | x in t[src].children[lo..hi]
      ensures x in t[src].children && src < x < |t| && t[x].parent == Some(src)
    {
      var k :| lo <= k < hi && t[src].children[k] == x;
    }
  }

  lemma MovedParents(t: Tree, r: Tree, src: nat, lo: nat, hi: nat, target: nat, anchor: nat)
    requires MoveStep(t, r, src, lo, hi, target, anchor)
    ensures ParentsPrecede(r)
  {
    var ch := t[src].children;
    var moved := ch[lo..hi];
    var rest := ch[..lo] + ch[hi..];
    DistinctOutside(ch, lo, hi);
    MovedNodes(t, src, lo, hi);
    forall n | 0 <= n < |r| && r[n].parent.Some?
      ensures r[n].parent.value < n && n in r[r[n].parent.value].children
    {
      if n in moved {
        var k :| lo <= k < hi && ch[k] == n;
        assert target < n;
        assert n in r[target].children;
      } else {
        assert r[n].parent == t[n].parent;
        var p := t[n].parent.value;
        assert n in t[p].children;
        if p == src {
          assert n in rest;
        } else if p == target {
          assert n in r[target].children;
        } else {
          assert r[p].children == t[p].children;
        }
      }
    }
  }

  lemma MovedChildren(t: Tree, r: Tree, src: nat, lo: nat, hi: nat, target: nat, anchor: nat)
    requires MoveStep(t, r, src, lo, hi, target, anchor)
    ensures ChildrenLinked(r)
  {
    var ch := t[src].children;
    var moved := ch[lo..hi];
    var rest := ch[..lo] + ch[hi..];
    DistinctOutside(ch, lo, hi);
    MovedNodes(t, src, lo, hi);
    forall n, j | 0 <= n < |r| && 0 <= j < |r[n].children|
      ensures r[n].children[j] < |r| && r[r[n].children[j]].parent == Some(n)
    {
      var c := r[n].children[j];
      if n == src {
        assert c in rest && c in ch;
        var jj :| 0 <= jj < |ch| && ch[jj] == c;
        assert t[c].parent == Some(src);
      } else if n == target {
        if c !in moved {
          assert c in t[target].children;
          var jj :| 0 <= jj < |t[target].children| && t[target].children[jj] == c;
          assert t[c].parent == Some(target);
        }
      } else {
        assert r[n].children == t[n].children;
        assert t[c].parent == Some(n);
        assert c !in moved;
      }
    }
  }

  lemma MovedDistinct(t: Tree, r: Tree, src: nat, lo: nat, hi: nat, target: nat, anchor: nat)
    requires MoveStep(t, r, src, lo, hi, target, anchor)
    ensures ChildrenDistinct(r)
  {
    var ch := t[src].children;
    var moved := ch[lo..hi];
    var tc := t[target].children;
    DistinctOutside(ch, lo, hi);
    MovedNodes(t, src, lo, hi);
    forall y | y in moved ensures y !in tc {
      forall jj | 0 <= jj < |tc| ensures tc[jj] != y {
        assert t[tc[jj]].parent == Some(target);
      }
    }
    InsertedAfterDistinct(tc, anchor, moved);
    forall n | 0 <= n < |r| ensures Distinct(r[n].children) {
      if n != src && n != target {
        assert r[n].children == t[n].children;
      }
    }
  }

  lemma MovedShaped(t: Tree, r: Tree, src: nat, lo: nat, hi: nat, target: nat, anchor: nat)
    requires MoveStep(t, r, src, lo, hi, target, anchor)
    ensures Shaped(r)
  {
    assert forall n :: 0 <= n < |t| ==> r[n].kind == t[n].kind;
    forall n | 0 <= n < |r| ensures NodeShaped(r, n) {
      assert NodeShaped(t, n);
      if n != src && n != target {
        assert r[n].children == t[n].children;
      }
    }
  }

  /** `x.delete()`: `x` is cut from its parent's children and left detached, with its own
      subtree intact. A block statement cannot lose its code block. */
  function Deleted(t: Tree, x: nat): (r: Tree)
    requires WellFormed(t) && x < |t|
    requires t[x].parent.Some? ==> !t[t[x].parent.value].kind.BlockStatement?
    ensures |r| == |t| && WellFormed(r)
    ensures r[x] == t[x].(parent := None)
    ensures t[x].parent.Some? ==>
      r[t[x].parent.value] == t[t[x].parent.value].(children := Removed(t[t[x].parent.value].children, x))
    ensures forall n {:trigger r[n]} :: 0 <= n < |t| && n != x && Some(n) != t[x].parent ==> r[n] == t[n]
    ensures forall n {:trigger r[n]} :: 0 <= n < |t| ==> r[n].kind == t[n].kind
  {
    match t[x].parent
    case None => t
    case Some(p) =>
      assert x in t[p].children;
      var r := t[p := t[p].(children := Removed(t[p].children, x))][x := t[x].(parent := None)];
      DeletedWellFormed(t, r, x, p);
      r
  }

  lemma DeletedWellFormed(t: Tree, r: Tree, x: nat, p: nat)
    requires WellFormed(t) && x < |t| && t[x].parent == Some(p) && !t[p].kind.BlockStatement?
    requires x in t[p].children
    requires r == t[p := t[p].(children := Removed(t[p].children, x))][x := t[x].(parent := None)]
    ensures WellFormed(r)
  {
    assert p < x;
    assert forall n :: 0 <= n < |t| ==> r[n].kind == t[n].kind;
    forall n | 0 <= n < |r| && r[n].parent.Some?
      ensures r[n].parent.value < n && n in r[r[n].parent.value].children
    {
      assert n != x && r[n].parent == t[n].parent;
      assert n in t[t[n].parent.value].children;
    }
    forall n, j | 0 <= n < |r| && 0 <= j < |r[n].children|
      ensures r[n].children[j] < |r| && r[r[n].children[j]].parent == Some(n)
    {
      var c := r[n].children[j];
      if n == p {
        assert c in t[p].children && c != x;
      } else {
        assert r[n].children == t[n].children;
        assert t[c].parent == Some(n);
        assert c != x;
      }
    }
    forall n | 0 <= n < |r| ensures Distinct(r[n].children) {
      if n != p {
        assert r[n].children == t[n].children;
      }
    }
    forall n | 0 <= n < |r| ensures NodeShaped(r, n) {
      assert NodeShaped(t, n);
      if n != p {
        assert r[n].children == t[n].children;
      }
    }
  }

  // ---------------------------------------------------------------------------------------
  // The mutable tree

  /** The PSI tree of one file, edited in place. */
  class PsiTree {
    var nodes: Tree

    ghost predicate Valid()
      reads this
    {
      WellFormed(nodes)
    }

    constructor (nodes: Tree)
      requires WellFormed(nodes)
      ensures Valid() && this.nodes == nodes
    {
      this.nodes := nodes;
    }

    /** `block.addBefore(<new element of kind k>, anchor)`; returns the added element. */
    method AddBefore(block: nat, kind: Kind, anchor: Option<nat>) returns (added: nat)
      requires Valid() && block < |nodes| && nodes[block].kind.CodeBlock? && !kind.BlockStatement?
      requires anchor.Some? ==> anchor.value in nodes[block].children
      modifies this
      ensures Valid() && added == |old(nodes)|
      ensures nodes == AddedBefore(old(nodes), block, kind, anchor)
    {
      added := |nodes|;
      nodes := AddedBefore(nodes, block, kind, anchor);
    }

    /** `parent.addAfter(element, anchor)` together with the removal of the original `element`
        from where it was. */
    method AddAfter(parent: nat, element: nat, anchor: nat)
      requires Valid() && parent < |nodes| && element < |nodes| && parent < element
      requires nodes[element].parent.Some? && nodes[element].parent.value != parent
      requires !nodes[nodes[element].parent.value].kind.BlockStatement?
      requires !nodes[parent].kind.IfStatement? && !nodes[parent].kind.BlockStatement?
      requires anchor in nodes[parent].children
      modifies this
      ensures Valid()
      ensures nodes == MovedRangeAfter(old(nodes), old(nodes)[element].parent.value,
                                       SiblingIndex(old(nodes), element), SiblingIndex(old(nodes), element) + 1,
                                       parent, anchor)
    {
      var a := SiblingIndex(nodes, element);
      nodes := MovedRangeAfter(nodes, nodes[element].parent.value, a, a + 1, parent, anchor);
    }

    /** `parent.addRangeAfter(first, last, anchor)` for siblings `first` .. `last`, together with
        the removal of the originals from where they were. */
    method AddRangeAfter(parent: nat, first: nat, last: nat, anchor: nat)
      requires Valid() && parent < |nodes| && first < |nodes| && last < |nodes|
      requires nodes[first].parent.Some? && nodes[last].parent == nodes[first].parent
      requires nodes[first].parent.value != parent
      requires !nodes[nodes[first].parent.value].kind.BlockStatement?
      requires SiblingIndex(nodes, first) <= SiblingIndex(nodes, last)
      requires !nodes[parent].kind.IfStatement? && !nodes[parent].kind.BlockStatement?
      requires anchor in nodes[parent].children
      requires forall k :: SiblingIndex(nodes, first) <= k <= SiblingIndex(nodes, last) ==>
                 parent < nodes[nodes[first].parent.value].children[k]
      modifies this
      ensures Valid()
      ensures nodes == MovedRangeAfter(old(nodes), old(nodes)[first].parent.value,
                                       SiblingIndex(old(nodes), first), SiblingIndex(old(nodes), last) + 1,
                                       parent, anchor)
    {
      var t := nodes;
      var src := t[first].parent.value;
      var a := SiblingIndex(t, first);
      var b := SiblingIndex(t, last);
      assert forall k :: a <= k < b + 1 ==> parent < t[src].children[k];
      nodes := MovedRangeAfter(t, src, a, b + 1, parent, anchor);
    }

    /** `element.delete()`. */
    method Delete(element: nat)
      requires Valid() && element < |nodes|
      requires nodes[element].parent.Some? ==> !nodes[nodes[element].parent.value].kind.BlockStatement?
      modifies this
      ensures Valid() && nodes == Deleted(old(nodes), element)
    {
      nodes := Deleted(nodes, element);
    }
  }
}
