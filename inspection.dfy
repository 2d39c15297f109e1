/** The detection half of the sane-if-else inspection: the visitor that reports an `if`/`else`
    whose then-block is longer than its else-block, and the walk that decides whether anything
    runs after it. */
module SaneIfElseInspection {
  import opened Psi

  /** `s` is the else-branch of its parent `if`: the only case in which the walk climbs. */
  predicate InElseSlot(t: Tree, s: nat): (b: bool)
    requires WellFormed(t) && s < |t|
    ensures b ==> t[s].parent.Some? && t[s].parent.value < s &&
                  t[t[s].parent.value].kind.IfStatement? && ThenBranch(t, t[s].parent.value) != Some(s)
  {
    match t[s].parent
    case None => false
    case Some(p) => t[p].kind.IfStatement? && ElseBranch(t, p) == Some(s)
  }

  /** The head of the else-if chain that ends in `s`: climb while the current node is the
      else-branch of its parent `if`. */
  ghost function ChainTop(t: Tree, s: nat): (top: nat)
    requires WellFormed(t) && s < |t|
    ensures top <= s && !InElseSlot(t, top)
    ensures top == s <==> !InElseSlot(t, s)
    ensures t[s].kind.IfStatement? ==> t[top].kind.IfStatement?
    decreases s
  {
    if InElseSlot(t, s) then ChainTop(t, t[s].parent.value) else s
  }

  /** `getNextStatement`: the statement that runs after the whole else-if chain ending in
      `statement`, if any. Each climb moves to the parent, which has a smaller id. */
  method GetNextStatement(t: Tree, statement: nat) returns (next: Option<nat>)
    requires WellFormed(t) && statement < |t| && t[statement].kind.IfStatement?
    ensures next == NextSiblingOfStatement(t, ChainTop(t, statement))
  {
    var current: nat := statement;
    while true
      invariant current < |t| && t[current].kind.IfStatement?
      invariant ChainTop(t, current) == ChainTop(t, statement)
      decreases current
    {
      var parent := t[current].parent;
      if parent.Some? && t[parent.value].kind.IfStatement? {
        var elseBranch := ElseBranch(t, parent.value);
        if elseBranch == Some(current) {
          current := parent.value;
          continue;
        }
      }
      return NextSiblingOfStatement(t, current);
    }
  }

  /** The `if` sits directly in a code block that is the body of a method. */
  predicate InMethodBody(t: Tree, i: nat): (b: bool)
    requires WellFormed(t) && i < |t|
    ensures b ==> t[i].parent.Some? && !InElseSlot(t, i) && t[i].parent.value < i
  {
    match t[i].parent
    case None => false
    case Some(b) => t[b].kind.CodeBlock? && t[b].parent.Some? && t[t[b].parent.value].kind.Method?
  }

  function EnclosingMethod(t: Tree, i: nat): (m: nat)
    requires WellFormed(t) && i < |t| && InMethodBody(t, i)
    ensures m < |t| && t[m].kind.Method?
  {
    t[t[i].parent.value].parent.value
  }

  /** Both branches are present and are braced blocks. */
  predicate BranchesBraced(t: Tree, i: nat): (b: bool)
    requires WellFormed(t) && i < |t|
    ensures b ==> |t[i].children| >= 2 && ThenBranch(t, i) != ElseBranch(t, i)
  {
    ThenBranch(t, i).Some? && t[ThenBranch(t, i).value].kind.BlockStatement? &&
    ElseBranch(t, i).Some? && t[ElseBranch(t, i).value].kind.BlockStatement?
  }

  function ThenBlock(t: Tree, i: nat): (b: nat)
    requires WellFormed(t) && i < |t| && BranchesBraced(t, i)
    ensures b < |t| && t[b].kind.CodeBlock? && t[b].parent == ThenBranch(t, i) && b != ElseBlock(t, i)
  {
    CodeBlockOf(t, ThenBranch(t, i).value)
  }

  function ElseBlock(t: Tree, i: nat): (b: nat)
    requires WellFormed(t) && i < |t| && BranchesBraced(t, i)
    ensures b < |t| && t[b].kind.CodeBlock? && t[b].parent == ElseBranch(t, i)
  {
    CodeBlockOf(t, ElseBranch(t, i).value)
  }

  /** The four gates of `visitIfStatement`: the `if` sits in a method body, both branches are
      braced, the then-block has strictly more lines than the else-block, and no statement runs
      after its else-if chain. */
  ghost predicate Reported(t: Tree, i: nat): (b: bool)
    requires WellFormed(t) && i < |t| && t[i].kind.IfStatement?
    ensures b ==> InMethodBody(t, i) && BranchesBraced(t, i) && ChainTop(t, i) == i &&
                  NoStatementAfter(t, i)
  {
    InMethodBody(t, i) && BranchesBraced(t, i) &&
    t[ThenBlock(t, i)].kind.lines > t[ElseBlock(t, i)].kind.lines &&
    NextSiblingOfStatement(t, ChainTop(t, i)).None?
  }

  /** A problem registered on `ifStatement`, with the quick fix bound to it and its method. */
  datatype Problem = Problem(ifStatement: nat, enclosingMethod: nat)

  /** `visitIfStatement`: reports the `if` exactly when it passes the four gates, with the
      method around it. */
  method VisitIfStatement(t: Tree, ifStatement: nat) returns (problem: Option<Problem>)
    requires WellFormed(t) && ifStatement < |t| && t[ifStatement].kind.IfStatement?
    ensures problem.Some? <==> Reported(t, ifStatement)
    ensures problem.Some? ==> problem.value == Problem(ifStatement, EnclosingMethod(t, ifStatement))
  {
    var parent := t[ifStatement].parent;
    if !(parent.Some? && t[parent.value].kind.CodeBlock?) {
      return None;
    }
    var thenBranch := ThenBranch(t, ifStatement);
    var elseBranch := ElseBranch(t, ifStatement);
    if !(thenBranch.Some? && t[thenBranch.value].kind.BlockStatement?) {
      return None;
    }
    if !(elseBranch.Some? && t[elseBranch.value].kind.BlockStatement?) {
      return None;
    }
    var thenBlock := CodeBlockOf(t, thenBranch.value);
    var elseBlock := CodeBlockOf(t, elseBranch.value);
    var enclosing := t[parent.value].parent;
    if !(enclosing.Some? && t[enclosing.value].kind.Method?) {
      return None;
    }
    if t[thenBlock].kind.lines <= t[elseBlock].kind.lines {
      return None;
    }
    var next := GetNextStatement(t, ifStatement);
    if next.None? {
      return Some(Problem(ifStatement, enclosing.value));
    }
    return None;
  }

  /** An `if` in a method body is never an else-branch, so the walk of `getNextStatement` takes
      no step and looks at the `if`'s own siblings. */
  lemma MethodBodyWalkIsTrivial(t: Tree, i: nat)
    requires WellFormed(t) && i < |t| && InMethodBody(t, i)
    ensures ChainTop(t, i) == i
  {
  }

  /** A reported `if` is the last statement of its method body: nothing but whitespace,
      comments and the closing brace follows it. Conversely a statement after it blocks the
      report. */
  lemma ReportedIfIsLast(t: Tree, i: nat)
    requires WellFormed(t) && i < |t| && t[i].kind.IfStatement? && InMethodBody(t, i)
    ensures NextSiblingOfStatement(t, ChainTop(t, i)).None? <==> NoStatementAfter(t, i)
  {
    MethodBodyWalkIsTrivial(t, i);
  }

  /** The walk climbs only through else slots, and the top it reaches is not itself an else
      branch; walking from any node on the way lands on the same top. */
  lemma {:induction false} ChainTopOfParent(t: Tree, s: nat)
    requires WellFormed(t) && s < |t| && InElseSlot(t, s)
    ensures ChainTop(t, t[s].parent.value) == ChainTop(t, s)
    ensures ElseBranch(t, t[s].parent.value) == Some(s)
  {
  }
}
