/**
  The evaluator of the Polish-notation calculator: `eval_op` applies one
  operator to two `long` values, and `eval` reduces a parse tree to one
  `long`, folding the operator over the operands from left to right.

  C's `long` is 64 bits wide here.  Where the C program has undefined
  behaviour (a signed overflow, a division by zero, an `atoi` of a literal
  outside the range of `int`) the model does not pick a value: it yields
  `Undefined` with the cause, and once an evaluation is undefined it stays so.
 */
module Evaluator {
  import opened CAtoi
  import opened Ast

  const LongMin: int := -0x8000_0000_0000_0000
  const LongMax: int := 0x7fff_ffff_ffff_ffff

  predicate InLong(x: int)
  {
    LongMin <= x <= LongMax
  }

  /** The values of the C type `long`. */
  type Long = x: int | InLong(x)

  datatype Cause = DivisionByZero | Overflow

  /** What a computation of type `long` comes to: a value, or undefined behaviour. */
  datatype Outcome = Defined(value: Long) | Undefined(cause: Cause)

  predicate IsAdd(op: string) { op == "+" || op == "add" }
  predicate IsSub(op: string) { op == "-" || op == "sub" }
  predicate IsMul(op: string) { op == "*" || op == "mul" }
  predicate IsDiv(op: string) { op == "/" || op == "div" }

  function Abs(x: int): nat
  {
    if x < 0 then -x else x
  }

  /** A result of signed `long` arithmetic: defined only when representable. */
  function Checked(v: int): Outcome
  {
    if InLong(v) then Defined(v) else Undefined(Overflow)
  }

  /** Euclidean division of naturals, stated as bounds on the product. */
  lemma DivBounds(a: nat, b: nat)
    requires b > 0
    ensures 0 <= a / b
    ensures a - b < (a / b) * b <= a
  {
  }

  /** Multiplying by a natural keeps the order. */
  lemma MulMonotone(u: nat, v: nat, b: nat)
    requires u <= v
    ensures u * b <= v * b
  {
  }

  /**
    C's integer division: the algebraic quotient with any fractional part
    discarded, that is, rounded toward zero (Dafny's own `/` rounds so that
    the remainder is never negative).
   */
  function TruncDiv(x: int, y: int): (q: int)
    requires y != 0
    ensures Abs(x) - Abs(y) < Abs(q) * Abs(y) <= Abs(x)
    ensures q > 0 ==> (x > 0) == (y > 0)
    ensures q < 0 ==> (x > 0) != (y > 0)
  {
    var a, b := Abs(x), Abs(y);
    var m: nat := (DivBounds(a, b); a / b);
    assert m > 0 ==> b <= a by {
      if m > 0 { MulMonotone(1, m, b); }
    }
    assert Abs(m) == m && Abs(-(m as int)) == m;
    if (x < 0) == (y < 0) then m else -(m as int)
  }

  /** The bounds of `DivBounds` single out the quotient. */
  lemma QuotientUnique(a: nat, b: nat, m: nat)
    requires b > 0
    requires a - b < m * b <= a
    ensures m == a / b
  {
    var d: nat := (DivBounds(a, b); a / b);
    assert (m + 1) * b == m * b + b;
    assert (d + 1) * b == d * b + b;
    if m < d {
      MulMonotone(m + 1, d, b);
    } else if m > d {
      MulMonotone(d + 1, m, b);
    }
  }

  /** Rounding toward zero determines the quotient: no other integer satisfies `TruncDiv`'s contract. */
  lemma {:induction false} TruncDivUnique(x: int, y: int, q: int)
    requires y != 0
    requires Abs(x) - Abs(y) < Abs(q) * Abs(y) <= Abs(x)
    requires q > 0 ==> (x > 0) == (y > 0)
    requires q < 0 ==> (x > 0) != (y > 0)
    ensures q == TruncDiv(x, y)
  {
    var a, b, m := Abs(x), Abs(y), Abs(q);
    QuotientUnique(a, b, m);
    var r := TruncDiv(x, y);
    QuotientUnique(a, b, Abs(r));
  }

  /**
    `eval_op`: the operator is compared with each of the spellings it may
    have; an operator that matches none of them, `%` among them, yields 0.
   */
  function EvalOp(op: string, x: Long, y: Long): (r: Outcome)
    ensures IsAdd(op) ==> r == Checked(x + y)
    ensures IsSub(op) ==> r == Checked(x - y)
    ensures IsMul(op) ==> r == Checked(x * y)
    ensures IsDiv(op) && y != 0 ==> r == Checked(TruncDiv(x, y))
    ensures r == Undefined(DivisionByZero) <==> IsDiv(op) && y == 0
    ensures !IsAdd(op) && !IsSub(op) && !IsMul(op) && !IsDiv(op) ==> r == Defined(0)
  {
    if IsAdd(op) then Checked(x + y)
    else if IsSub(op) then Checked(x - y)
    else if IsMul(op) then Checked(x * y)
    else if IsDiv(op) then (if y == 0 then Undefined(DivisionByZero) else Checked(TruncDiv(x, y)))
    else Defined(0)
  }

  /** The only quotient `eval_op` cannot represent is `LONG_MIN / -1`. */
  lemma {:induction false} DivOverflow(op: string, x: Long, y: Long)
    requires IsDiv(op) && y != 0
    ensures EvalOp(op, x, y) == Undefined(Overflow) <==> x == LongMin && y == -1
  {
    var q := TruncDiv(x, y);
    var a, b, m := Abs(x), Abs(y), Abs(q);
    assert InLong(x);
    assert a <= 0x8000_0000_0000_0000;
    assert m * b <= a;
    if b == 1 {
      assert m * b == m;
      assert m == a;
      assert q == if y == 1 then x as int else -(x as int);
      assert EvalOp(op, x, y) == Checked(q);
    } else {
      MulMonotone(2, b, m);
      assert 2 * m <= b * m <= a;
      assert InLong(q);
    }
  }

  /** The value of a number leaf: `atoi` of its text, which must fit the `int` that `atoi` returns. */
  function Literal(text: string): Outcome
  {
    var n := Atoi(text);
    if InInt(n) then Defined(n) else Undefined(Overflow)
  }

  /**
    One step of the operand loop, `x = eval_op(op, x, eval(child))`: the
    child is evaluated after the accumulator, so undefined behaviour in the
    accumulator comes first.
   */
  function Step(op: string, acc: Outcome, y: Outcome): Outcome
  {
    if acc.Undefined? then acc
    else if y.Undefined? then y
    else EvalOp(op, acc.value, y.value)
  }

  /** The left fold of `Step` over `ys`, starting from `acc`. */
  function FoldLeft(op: string, acc: Outcome, ys: seq<Outcome>): Outcome
    decreases |ys|
  {
    if ys == [] then acc else Step(op, FoldLeft(op, acc, ys[..|ys| - 1]), ys[|ys| - 1])
  }

  /** The operator of an application node: the text of child 1. */
  function Operator(t: Node): string
    requires WellFormed(t) && !IsNumber(t)
  {
    t.children[1].contents
  }

  /** The values of the operands of an application node, children 2 up to the stop index. */
  function Operands(t: Node): (vs: seq<Outcome>)
    requires WellFormed(t) && !IsNumber(t)
    ensures |vs| == StopIndex(t.children, 3) - 2
    decreases t, 0
  {
    var k := StopIndex(t.children, 3);
    seq(k - 2, j requires 0 <= j < k - 2 => Denote(t.children[j + 2]))
  }

  /**
    What `eval` computes for a well-formed tree: a number leaf is its
    literal; an application folds its operator over its operands, starting
    from the first.
   */
  function Denote(t: Node): Outcome
    requires WellFormed(t)
    decreases t, 1
  {
    if IsNumber(t) then Literal(t.contents)
    else
      var vs := Operands(t);
      FoldLeft(Operator(t), vs[0], vs[1..])
  }

  /** Each operand is well formed, and its value is the matching entry of `Operands`. */
  lemma OperandAt(t: Node, j: nat)
    requires WellFormed(t) && !IsNumber(t)
    requires 2 <= j < StopIndex(t.children, 3)
    ensures WellFormed(t.children[j])
    ensures Operands(t)[j - 2] == Denote(t.children[j])
  {
  }

  /** Folding over one more element is one more `Step`. */
  lemma FoldLeftSnoc(op: string, acc: Outcome, ys: seq<Outcome>, n: nat)
    requires n < |ys|
    ensures FoldLeft(op, acc, ys[..n + 1]) == Step(op, FoldLeft(op, acc, ys[..n]), ys[n])
  {
    assert ys[..n + 1][..n] == ys[..n];
  }

  /**
    `eval`: the recursion on the children and the operand loop of the
    source, proved to compute `Denote`.  Each recursive call is on a child,
    so evaluation terminates, and the operands are evaluated in order.
   */
  method Eval(t: Node) returns (r: Outcome)
    requires WellFormed(t)
    ensures r == Denote(t)
    decreases t
  {
    if IsNumber(t) {
      return Literal(t.contents);
    }
    var op := t.children[1].contents;
    OperandAt(t, 2);
    var x := Eval(t.children[2]);
    ghost var vs := Operands(t);
    var i := 3;
    while IsExpr(t.children[i])
      invariant 3 <= i <= StopIndex(t.children, 3)
      invariant x == FoldLeft(op, vs[0], vs[1..][..i - 3])
      decreases |t.children| - i
    {
      OperandAt(t, i);
      var y := Eval(t.children[i]);
      FoldLeftSnoc(op, vs[0], vs[1..], i - 3);
      if x.Defined? && y.Defined? {
        x := EvalOp(op, x.value, y.value);
      } else if x.Defined? {
        x := y;
      }
      i := i + 1;
    }
    assert vs[1..][..i - 3] == vs[1..];
    return x;
  }
}
