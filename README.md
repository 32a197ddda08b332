# Lispy 0.0.1: the Polish-notation evaluator

This project models the evaluator of the early "Polish notation" calculator in
`parsing.c`. The parser library turns a line such as `+ 1 (* 2 3)` into a tree of
tagged nodes. `eval` reduces that tree to one `long`:

- A node whose tag contains `number` is read with `atoi`.
- Any other node takes child 1 as the operator and child 2 as the first operand.
- Each following child whose tag contains `expr` is folded in, left to right, with `eval_op`.
- `eval_op` knows `+`/`add`, `-`/`sub`, `*`/`mul` and `/`/`div`. Any other operator gives 0.

Modules, one per file:

- `CString` (`cstring.dfy`): `strstr(s, sub) != NULL` as `Contains`. `strcmp(a, b) == 0` is sequence equality.
- `CAtoi` (`atoi.dfy`): the C library's `atoi`, plus the decimal text of integers.
- `Ast` (`ast.dfy`): the parse tree as a `Node` datatype. It also holds `WellFormed`, the tree shape `eval` needs to stay inside every children array, and the shapes the grammar at `parsing.c:52-56` produces.
- `Evaluator` (`evaluator.dfy`):
  - `EvalOp` models `eval_op`.
  - `Denote` is the specification function of `eval`.
  - `Eval` is `eval` itself, as a method with its operand loop, proved to compute `Denote`.
- `EvalProperties` (`properties.dfy`): what the fold comes to. Sums for `+`, differences for `-`, 0 for an unknown operator, one operand returned unchanged, and how undefined behaviour spreads.

C's `long` is taken to be 64 bits wide (`Long`). The C program has undefined behaviour in three places:

- signed overflow in `eval_op`;
- division by zero in `eval_op`;
- `atoi` of a literal outside the range of `int`.

The model does not pick a value in those cases. It yields `Undefined(cause)`, and an evaluation that has become undefined stays undefined with its first cause.

Some members are definitions that the lemmas below give their meaning:

- `Evaluator.Checked` is a result of signed `long` arithmetic: the value if it is representable, an overflow otherwise. `EvalOp`, `DivOverflow`, `FoldAdd` and `FoldSub` state what it comes to.
- `Evaluator.Literal` is the value of a number leaf: `atoi` of its text, or an overflow when that does not fit an `int`. `AtoiOfLiteral` and `NumberLeaf` state what it comes to for the literals of the grammar.
- `CAtoi.Atoi`, `Evaluator.Step`, `Evaluator.FoldLeft` and `Evaluator.Denote` are the specification of `atoi`, of one loop step and of `eval`.

Where this early version behaves differently from later versions of this interpreter, the model follows the code in `parsing.c`:

- `(- 5)` evaluates to 5. There is no unary negation.
- Division by zero is not checked. It is undefined behaviour, not an error value.
- `%` is accepted by the grammar, but `eval_op` does not know it and returns 0.
- Number literals may carry a fractional part (`-?[0-9]+(\.[0-9]+)?`), which `atoi` ignores.

## Model

| member | source | states |
|---|---|---|
| CString.Contains | parsing.c:25 | `strstr(s, sub) != NULL`: true exactly when `sub` occurs at some index of `s` |
| CAtoi.AtoiOfLiteral | parsing.c:26 | a literal `-?[0-9]+(\.[0-9]+)?` of the grammar (parsing.c:52) reads as its signed integer digits; the fractional part is ignored |
| CAtoi.AtoiOfIntText | parsing.c:26 | `atoi`'s digit reading, before the conversion to `int`, reads back the decimal text of every integer: `Atoi(IntText(n)) == n` |
| EvalProperties.LiteralOfIntText | parsing.c:25-27 | a number leaf holding the decimal text of `n` evaluates to `n` when `n` fits an `int`, and is undefined behaviour otherwise |
| CAtoi.AtoiWithoutDigits | parsing.c:26 | text with no digit after its leading white space and optional sign reads as 0; after a sign even white space ends the number |
| CAtoi.NatTextValue | parsing.c:26 | the decimal digits written for a natural number have that number as their value; this is the step behind the `atoi` round trip `AtoiOfIntText` |
| Ast.StopIndex | parsing.c:33-37 | the first child from index `i` on whose tag lacks `expr`, or the child count; every child before it is an operand |
| Ast.StopAtClose | parsing.c:34 | in an application the grammar built, the operand loop stops exactly at the closing `)` or `/$/` |
| Ast.GrammarExprWellFormed | parsing.c:55 | every tree of the rule `expr` is well formed, so `eval` never reads past a children array |
| Ast.GrammarProgramWellFormed | parsing.c:56 | every tree of the top rule `lispy` is well formed |
| Evaluator.TruncDiv | parsing.c:18 | C's `/`: `Abs(q) * Abs(y)` is at most `Abs(x)` and more than `Abs(x) - Abs(y)` (the fraction is discarded), and `q` is positive only for operands of the same sign, negative only for opposite signs |
| Evaluator.TruncDivUnique | parsing.c:18 | that rounding toward zero determines the quotient uniquely |
| Evaluator.EvalOp | parsing.c:7-21 | `+`/`add`, `-`/`sub`, `*`/`mul` give `x+y`, `x-y`, `x*y` when representable; `/`/`div` gives the truncated quotient for `y != 0`; it is a division by zero exactly for `/`/`div` with `y == 0`; every other operator, `%` included, gives 0 |
| Evaluator.DivOverflow | parsing.c:17-19 | a non-zero division overflows exactly for `LONG_MIN / -1` |
| Evaluator.Eval | parsing.c:23-40 | for every well-formed tree, `eval` returns `Denote(t)`: the leaf's literal, or the left fold of `eval_op` over children 2 up to the first non-operand child at index 3 or later; the loop index stays in bounds and each recursive call is on a child, so it terminates |
| EvalProperties.FoldUndefinedSticky | parsing.c:35 | once the accumulator is undefined, the rest of the loop keeps that first cause |
| EvalProperties.FoldDefinedOperands | parsing.c:31-37 | a defined result implies that the first operand and every later operand were defined |
| EvalProperties.FoldAdd | parsing.c:33-37 | `+`/`add` over defined operands is the first operand plus the sum of the rest when every running total fits a `long`, and an overflow otherwise |
| EvalProperties.FoldSub | parsing.c:33-37 | `-`/`sub` over defined operands is the first operand minus the sum of the rest when every running difference fits, and an overflow otherwise |
| EvalProperties.FoldUnknown | parsing.c:20 | with an operator `eval_op` does not know, two or more defined operands give 0 |
| EvalProperties.SingleOperand | parsing.c:31-39 | with exactly one operand, `eval` returns that operand's value unchanged: `(- 5)` is 5 |
| EvalProperties.UndefinedOperand | parsing.c:31-37 | undefined behaviour in any operand makes the whole application undefined |
| EvalProperties.NumberLeaf | parsing.c:25-27 | a number leaf whose text is a grammar literal evaluates to its signed integer digits when that signed value fits an `int` (`-2147483648` included), and is undefined behaviour otherwise |

## Left out

- `main` (parsing.c:42-83): it builds the parsers with the mpc library, runs the readline/history loop, prints results and errors, and frees memory. That is I/O and foreign library calls. The parse tree is an input to the model.
- The mpc parser itself is not part of this model. The trees it builds are described by `Ast.GrammarExpr` and `Ast.GrammarProgram`, written from the grammar text. They are not derived from the parser's code.
- The decimal text `printf("%li")` writes in `main` is modelled (`CAtoi.IntText`, `CAtoi.NatText`) only to state the `atoi` round trip. The printing itself is not modelled.
- prompt.c: an echo loop over `readline`, `add_history` and `printf`, with no logic.
- Memory management (`mpc_ast_delete`, `free`): it has no effect on the value computed.
- Undefined behaviour is modelled as an `Undefined` outcome. What a real machine does instead is not modelled: a trap on division by zero, or wrap-around on overflow.
- Trees that are not well formed: C would read past a children array. The model requires `WellFormed`, which the grammar guarantees (`Ast.GrammarProgramWellFormed`).
- `atoi` uses the C locale's `isspace` only. Locales are not modelled.
- `atoi` out of `int` range is treated as undefined behaviour, as the C standard says. The value a particular C library returns there is not modelled.
- Strings are sequences of characters without the terminating NUL. Tags and contents that contain NUL are not modelled.
- `x = eval_op(op, x, eval(child))`: when both the accumulator and the new operand are undefined, the model reports the accumulator's cause. Both readings of that line are undefined behaviour, so this choice affects only which cause is reported.
- `*`/`mul` and `/`/`div` folds have no lemma of their own like `FoldAdd`. Each step is stated by `EvalOp`, which gives the product, or the truncated quotient for a non-zero divisor, when it is representable.
