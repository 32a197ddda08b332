/**
  What the evaluator's left fold comes to, stated against independent
  definitions: sums for `+`, the first operand less a sum for `-`, the
  constant 0 for an operator `eval_op` does not know, and the propagation
  of undefined behaviour.
 */
module EvalProperties {
  import opened CAtoi
  import opened Ast
  import opened Evaluator

  predicate AllDefined(ys: seq<Outcome>)
  {
    forall k :: 0 <= k < |ys| ==> ys[k].Defined?
  }

  /** The mathematical sum of the values of `ys`. */
  function Sum(ys: seq<Outcome>): int
    requires AllDefined(ys)
  {
    if ys == [] then 0 else Sum(ys[..|ys| - 1]) + ys[|ys| - 1].value
  }

  /** Every running total `a + ys[0] + ... + ys[n-1]` fits a `long`. */
  predicate SumsInLong(a: int, ys: seq<Outcome>)
    requires AllDefined(ys)
  {
    forall n :: 0 <= n <= |ys| ==> InLong(a + Sum(ys[..n]))
  }

  /** Every running difference `a - ys[0] - ... - ys[n-1]` fits a `long`. */
  predicate DifferencesInLong(a: int, ys: seq<Outcome>)
    requires AllDefined(ys)
  {
    forall n :: 0 <= n <= |ys| ==> InLong(a - Sum(ys[..n]))
  }

  /** Once the accumulator is undefined, the fold keeps that first cause. */
  lemma {:induction false} FoldUndefinedSticky(op: string, acc: Outcome, ys: seq<Outcome>)
    requires acc.Undefined?
    ensures FoldLeft(op, acc, ys) == acc
    decreases |ys|
  {
    if ys != [] {
      FoldUndefinedSticky(op, acc, ys[..|ys| - 1]);
    }
  }

  /** A defined result needs a defined first operand and defined remaining operands. */
  lemma {:induction false} FoldDefinedOperands(op: string, acc: Outcome, ys: seq<Outcome>)
    ensures FoldLeft(op, acc, ys).Defined? ==> acc.Defined? && AllDefined(ys)
    decreases |ys|
  {
    if ys != [] {
      var init := ys[..|ys| - 1];
      FoldDefinedOperands(op, acc, init);
      assert forall k :: 0 <= k < |init| ==> ys[k] == init[k];
    }
  }

  /** The sum over a prefix one longer adds the next value. */
  lemma SumPrefix(ys: seq<Outcome>, n: nat)
    requires AllDefined(ys) && n < |ys|
    ensures AllDefined(ys[..n]) && AllDefined(ys[..n + 1])
    ensures Sum(ys[..n + 1]) == Sum(ys[..n]) + ys[n].value
  {
    assert ys[..n + 1][..n] == ys[..n];
  }

  /**
    `+` (or `add`) over defined operands is their sum with the first operand
    when every running total fits a `long`, and a signed overflow otherwise.
   */
  lemma {:induction false} FoldAdd(op: string, a: Long, ys: seq<Outcome>)
    requires IsAdd(op) && AllDefined(ys)
    ensures SumsInLong(a, ys) ==> FoldLeft(op, Defined(a), ys).Defined? && FoldLeft(op, Defined(a), ys).value == a + Sum(ys)
    ensures !SumsInLong(a, ys) ==> FoldLeft(op, Defined(a), ys) == Undefined(Overflow)
    decreases |ys|
  {
    if ys != [] {
      var n := |ys| - 1;
      var init := ys[..n];
      assert ys[..n + 1] == ys;
      SumPrefix(ys, n);
      FoldAdd(op, a, init);
      assert forall m :: 0 <= m <= n ==> init[..m] == ys[..m];
      if SumsInLong(a, init) {
        assert FoldLeft(op, Defined(a), init).value == a + Sum(init);
      } else {
        assert !SumsInLong(a, ys);
      }
    }
  }

  /**
    `-` (or `sub`) over defined operands subtracts every later operand from
    the first, when every running difference fits a `long`, and is a signed
    overflow otherwise.  With one operand it is that operand: there is no
    unary negation.
   */
  lemma {:induction false} FoldSub(op: string, a: Long, ys: seq<Outcome>)
    requires IsSub(op) && AllDefined(ys)
    ensures DifferencesInLong(a, ys) ==> FoldLeft(op, Defined(a), ys).Defined? && FoldLeft(op, Defined(a), ys).value == a - Sum(ys)
    ensures !DifferencesInLong(a, ys) ==> FoldLeft(op, Defined(a), ys) == Undefined(Overflow)
    decreases |ys|
  {
    if ys != [] {
      var n := |ys| - 1;
      var init := ys[..n];
      assert ys[..n + 1] == ys;
      SumPrefix(ys, n);
      FoldSub(op, a, init);
      assert forall m :: 0 <= m <= n ==> init[..m] == ys[..m];
      if DifferencesInLong(a, init) {
        assert FoldLeft(op, Defined(a), init).value == a - Sum(init);
      } else {
        assert !DifferencesInLong(a, ys);
      }
    }
  }

  /** An operator `eval_op` does not recognise makes any application with two or more defined operands 0. */
  lemma {:induction false} FoldUnknown(op: string, a: Long, ys: seq<Outcome>)
    requires !IsAdd(op) && !IsSub(op) && !IsMul(op) && !IsDiv(op)
    requires AllDefined(ys) && |ys| > 0
    ensures FoldLeft(op, Defined(a), ys) == Defined(0)
    decreases |ys|
  {
    var init := ys[..|ys| - 1];
    if |init| > 0 {
      assert forall k :: 0 <= k < |init| ==> init[k] == ys[k];
      FoldUnknown(op, a, init);
    }
  }

  /** An application with a single operand evaluates to that operand unchanged, whatever the operator. */
  lemma {:induction false} SingleOperand(t: Node)
    requires WellFormed(t) && !IsNumber(t)
    requires StopIndex(t.children, 3) == 3
    ensures WellFormed(t.children[2])
    ensures Denote(t) == Denote(t.children[2])
  {
    OperandAt(t, 2);
    assert Operands(t)[1..] == [];
  }

  /** Undefined behaviour in any operand makes the whole application undefined. */
  lemma {:induction false} UndefinedOperand(t: Node, j: nat)
    requires WellFormed(t) && !IsNumber(t)
    requires 2 <= j < StopIndex(t.children, 3)
    requires Operands(t)[j - 2].Undefined?
    ensures Denote(t).Undefined?
  {
    var vs := Operands(t);
    FoldDefinedOperands(Operator(t), vs[0], vs[1..]);
    if j > 2 {
      assert vs[1..][j - 3] == vs[j - 2];
    }
  }

  /** The text of an integer, read as a number leaf, is that integer when it fits an `int`, and undefined otherwise. */
  lemma {:induction false} LiteralOfIntText(n: int)
    ensures InInt(n) ==> Literal(IntText(n)) == Defined(n)
    ensures !InInt(n) ==> Literal(IntText(n)) == Undefined(Overflow)
  {
    AtoiOfIntText(n);
  }

  /**
    A number leaf whose text is a literal of the grammar evaluates to the
    value of its integer digits with its sign when that signed value fits an
    `int` (`-2147483648`, `INT_MIN`, among them), and is undefined otherwise.
   */
  lemma {:induction false} NumberLeaf(t: Node, negative: bool, ip: string, frac: string)
    requires IsNumber(t)
    requires |ip| > 0 && AllDigits(ip) && AllDigits(frac)
    requires t.contents == LiteralText(negative, ip, frac)
    ensures WellFormed(t)
    ensures InInt(if negative then -(DecimalValue(ip) as int) else DecimalValue(ip)) ==>
      Denote(t) == Defined(if negative then -(DecimalValue(ip) as int) else DecimalValue(ip))
    ensures !InInt(if negative then -(DecimalValue(ip) as int) else DecimalValue(ip)) ==>
      Denote(t) == Undefined(Overflow)
  {
    AtoiOfLiteral(negative, ip, frac);
  }
}
