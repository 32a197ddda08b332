/**
  The parse tree the evaluator walks.  The parser library hands over a tree
  of nodes, each with a tag (the names of the grammar rules that produced it,
  joined by `|`, such as `expr|number|regex`, `expr|>`, `operator|char` or
  `char`), the text it matched, and its children in order.  The evaluator
  inspects tags only by substring search.
 */
module Ast {
  import opened CString

  datatype Node = Node(tag: string, contents: string, children: seq<Node>)

  /** `strstr(t->tag, "number")`: the node is a number literal. */
  predicate IsNumber(t: Node)
  {
    Contains(t.tag, "number")
  }

  /** `strstr(t->tag, "expr")`: the node is an operand; delimiters and the operator are not. */
  predicate IsExpr(t: Node)
  {
    Contains(t.tag, "expr")
  }

  /**
    The index of the first child at or after `i` that is not an operand, or
    `|cs|` when every child from `i` on is one.  This is where the evaluator's
    operand loop stops.
   */
  function StopIndex(cs: seq<Node>, i: nat): (k: nat)
    requires i <= |cs|
    ensures i <= k <= |cs|
    ensures forall j :: i <= j < k ==> IsExpr(cs[j])
    ensures k < |cs| ==> !IsExpr(cs[k])
    decreases |cs| - i
  {
    if i == |cs| || !IsExpr(cs[i]) then i else StopIndex(cs, i + 1)
  }

  /**
    The trees on which evaluation stays inside every children array: a
    number node, or a node with a child 1 whose text is taken as the
    operator, a first operand at child 2, and some child at index 3 or later that is not an operand (the
    closing delimiter), every operand before it being well formed in turn.
   */
  predicate WellFormed(t: Node)
    decreases t
  {
    IsNumber(t) ||
    (|t.children| >= 3 &&
     StopIndex(t.children, 3) < |t.children| &&
     forall j :: 2 <= j < StopIndex(t.children, 3) ==> WellFormed(t.children[j]))
  }

  /** The operators the grammar accepts. */
  predicate IsOperatorName(s: string)
  {
    s in {"+", "-", "/", "*", "%", "add", "sub", "mul", "div"}
  }

  /**
    The non-recursive part of `'(' <operator> <expr>+ ')'` and of
    `/^/ <operator> <expr>+ /$/`: an opening delimiter, an operator, at least
    one operand, and a closing delimiter that is not an operand.
   */
  predicate OperatorForm(t: Node)
  {
    |t.children| >= 4 &&
    !IsExpr(t.children[0]) &&
    IsOperatorName(t.children[1].contents) &&
    !IsExpr(t.children[|t.children| - 1])
  }

  /** A tree the grammar's `expr` rule produces: a number leaf or a parenthesised application. */
  predicate GrammarExpr(t: Node)
    decreases t
  {
    IsExpr(t) &&
    if IsNumber(t) then t.children == []
    else OperatorForm(t) && forall j :: 2 <= j < |t.children| - 1 ==> GrammarExpr(t.children[j])
  }

  /** A tree the grammar's top rule `lispy` produces. */
  predicate GrammarProgram(t: Node)
  {
    !IsNumber(t) && OperatorForm(t) &&
    forall j :: 2 <= j < |t.children| - 1 ==> GrammarExpr(t.children[j])
  }

  /** In an application the grammar produced, the operand loop stops at the closing delimiter. */
  lemma {:induction false} StopAtClose(t: Node)
    requires OperatorForm(t)
    requires forall j :: 2 <= j < |t.children| - 1 ==> GrammarExpr(t.children[j])
    ensures StopIndex(t.children, 3) == |t.children| - 1
  {
    forall j | 2 <= j < |t.children| - 1
      ensures IsExpr(t.children[j])
    {
      assert GrammarExpr(t.children[j]);
    }
  }

  /** Every `expr` tree the grammar produces is well formed. */
  lemma {:induction false} GrammarExprWellFormed(t: Node)
    requires GrammarExpr(t)
    ensures WellFormed(t)
    decreases t
  {
    if !IsNumber(t) {
      StopAtClose(t);
      forall j | 2 <= j < StopIndex(t.children, 3)
        ensures WellFormed(t.children[j])
      {
        GrammarExprWellFormed(t.children[j]);
      }
    }
  }

  /** Every program tree the grammar produces is well formed, so evaluating it never reads past a children array. */
  lemma {:induction false} GrammarProgramWellFormed(t: Node)
    requires GrammarProgram(t)
    ensures WellFormed(t)
  {
    StopAtClose(t);
    forall j | 2 <= j < StopIndex(t.children, 3)
      ensures WellFormed(t.children[j])
    {
      GrammarExprWellFormed(t.children[j]);
    }
  }
}
