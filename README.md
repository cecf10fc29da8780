# CalculatorBrain: a verified model of a reverse-Polish calculator engine

`CalculatorBrain` is the engine behind a small calculator. It keeps a stack of
tokens: operands, named unary operations and named binary operations. It also
keeps a table of the five operations it knows (×, ÷, +, − and √), filled once
at construction. Pushing an operand, or an operation by its symbol, appends to
the stack. The engine then re-evaluates the whole stack from scratch with a
recursive postfix evaluator. That evaluator takes the last token and, for an
operation, evaluates what lies below it once (unary) or twice (binary). It
returns a result or nothing, together with the tokens it did not consume. On
any failure it hands back its whole input.

The project has four modules:

- `Wrappers` (`wrappers.dfy`): the `Option` type the engine returns.
- `Ops` (`ops.dfy`): the token datatype `Op`
  (Calculator/CalculatorBrain.swift:13-18), with the constructors `Operand`,
  `UnaryOperation` and `BinaryOperation`, and its `Description`. Operations
  carry the closure they apply, as the Swift enum does, and dispatch goes
  through it.
- `Evaluator` (`evaluator.dfy`): the recursive `Evaluate` over `seq<Op>`. It
  also holds an independent reference meaning for stacks: expression trees
  `Expr`, their values and their postfix token forms. Two lemmas relate
  `Evaluate` to that reference in both directions.
- `Brain` (`brain.dfy`): the operator table and the class `CalculatorBrain`,
  with the `opStack` field that its methods append to. The class invariant
  `Valid()` says that the operator table is always the five registered
  operations. The constructor establishes it, and every method requires and
  keeps it. Five client methods (`EmptyScenario`, `MinusScenario`,
  `PlusScenario`, `SquareRootScenario`, `PlusOnAnyEngine`) derive the
  calculator's worked examples from the method contracts alone.

Values are `int`. The code of ÷ and − is `$1 / $0` and `$1 - $0`, so the
operand evaluated first (the one directly below the operator) is the second
argument of the division or subtraction. `MinusOrder` and `DivideOrder` show
the effect: pushing `x`, `y` and then the operator computes `x − y` and
`x ÷ y`, as in ordinary reverse-Polish notation. So `5 2 −` gives 3 and
`2 3 −` gives −1: the first recursive call evaluates `[2, 3]` to 3 and
leaves `[2]` for the second call, which gives 2 (`OperandsMinus`).

## Model

| member | source | states |
|---|---|---|
| `Evaluator.Evaluate` | Calculator/CalculatorBrain.swift:47-70 | The recursion terminates. A result means the leftover is a strict prefix of the input. No result means the leftover is the input unchanged, whichever level failed. |
| `Evaluator.EmptyHasNoResult` | Calculator/CalculatorBrain.swift:48-69 | The empty stack has no result, and its leftover is the empty stack. |
| `Evaluator.OperandOnTop` | Calculator/CalculatorBrain.swift:50-53 | With `Operand(v)` on top, the result is `v` and the leftover is the stack without its last token. |
| `Evaluator.UnaryStep` | Calculator/CalculatorBrain.swift:54-58 | A unary operation has a result exactly when the stack below it has one. The result is the function applied to that value, and the leftover is the one that evaluation left. |
| `Evaluator.BinaryStep` | Calculator/CalculatorBrain.swift:59-66 | A binary operation has a result exactly when both operand evaluations succeed. The result is `operation(operand1, operand2)`. `operand1` comes from the tokens just below the operator, `operand2` from what they leave. The leftover is what the second evaluation left. |
| `Evaluator.LoneOperationFails` | Calculator/CalculatorBrain.swift:54-69 | An operation with nothing beneath it has no result and leaves its one-token input as it was. |
| `Evaluator.EvaluatePostfix` | Calculator/CalculatorBrain.swift:47-70 | Soundness against the expression-tree reference. The postfix form of any expression, on top of any stack, evaluates to the expression's value and consumes exactly its own tokens. |
| `Evaluator.EvaluateParses` | Calculator/CalculatorBrain.swift:47-70 | Completeness against the reference. Every successful evaluation consumed the postfix form of some expression, and its result is that expression's value. |
| `Evaluator.HasResultIffEndsInExpression` | Calculator/CalculatorBrain.swift:47-70 | A stack has a result if and only if it ends with the postfix form of an expression. |
| `Evaluator.PrefixIndependence` | Calculator/CalculatorBrain.swift:47-70 | Tokens put underneath a stack that evaluates change neither its result nor what it consumes. |
| `Ops.Op.Description` | Calculator/CalculatorBrain.swift:19-31 | An operation's description is its symbol. An operand's description is decimal text that reads back as exactly its value. |
| `Ops.NatStringRoundTrip` | Calculator/CalculatorBrain.swift:22-23 | The digits written for a natural number read back as that number. |
| `Ops.DecimalRoundTrip` | Calculator/CalculatorBrain.swift:22-23 | The decimal text of any integer reads back as that integer. |
| `Ops.CanonicalRoundTrip` | Calculator/CalculatorBrain.swift:22-23 | Digits without a leading zero are exactly what is written for the number they denote. |
| `Ops.ParseDecimalCanonical` | Calculator/CalculatorBrain.swift:22-23 | Text that reads back as a number is the decimal text of that number, so reading accepts nothing that is not written. |
| `Ops.OperandDescriptionInjective` | Calculator/CalculatorBrain.swift:22-23 | Operands with equal descriptions have equal values. |
| `Brain.KnownOps` | Calculator/CalculatorBrain.swift:37-45 | The table has exactly the keys ×, ÷, +, − and √. Every entry is an operation whose description is its key. |
| `Brain.Quotient` | Calculator/CalculatorBrain.swift:41 | The integer stand-in for division truncates toward zero. The magnitude of the result times the divisor's is at most the dividend's and within one divisor of it. A non-zero result is negative exactly when the operands' signs differ. A zero divisor gives 0. |
| `Brain.QuotientUnique` | Calculator/CalculatorBrain.swift:41 | Any value meeting the truncated-division conditions equals `Quotient`, so its contract fixes it. |
| `Brain.OperatorSemantics` | Calculator/CalculatorBrain.swift:40-44 | Each registered operation's function and argument order: × is `a * b`, ÷ is `b / a`, + is `a + b`, − is `b - a` and √ is the square root. |
| `Brain.MinusOrder` | Calculator/CalculatorBrain.swift:43 | For any expressions `x` and `y` on any stack, the tokens of `x`, then `y`, then − evaluate to `x − y` and consume exactly those tokens. |
| `Brain.DivideOrder` | Calculator/CalculatorBrain.swift:41 | For any expressions `x` and `y` on any stack, the tokens of `x`, then `y`, then ÷ evaluate to `x ÷ y` and consume exactly those tokens. |
| `Brain.OperandsMinus` | Calculator/CalculatorBrain.swift:59-64 | The stack `a b −` evaluates to `a − b` with nothing left, so `5 2 −` is 3. |
| `Brain.OperandsPlus` | Calculator/CalculatorBrain.swift:42 | The stack `a b +` evaluates to `a + b` with nothing left, so `3 4 +` is 7. |
| `Brain.SqrtFrom` | Calculator/CalculatorBrain.swift:44 | Counting up from any `r` with `r * r <= x` finds the integer square root of `x`. |
| `Brain.FloorSqrt` | Calculator/CalculatorBrain.swift:44 | The integer stand-in for `sqrt` is the floor of the square root of a non-negative argument. |
| `Brain.FloorSqrtOfSquare` | Calculator/CalculatorBrain.swift:44 | The square root of a perfect square `n * n` is `n`. |
| `Brain.SixteenSquareRoot` | Calculator/CalculatorBrain.swift:44 | The stack `16 √` evaluates to 4 with nothing left. |
| `Brain.CalculatorBrain.constructor` | Calculator/CalculatorBrain.swift:35-45 | A new engine has an empty stack and the operator table `KnownOps`, so its invariant `Valid()` holds. |
| `Brain.CalculatorBrain.Evaluate` | Calculator/CalculatorBrain.swift:72-76 | For an engine whose table is `KnownOps`, returns the result of evaluating the whole current stack. It modifies nothing, so repeated calls with no push in between return the same value. |
| `Brain.CalculatorBrain.PushOperand` | Calculator/CalculatorBrain.swift:78-81 | Appends exactly one `Operand(x)` after the unchanged earlier entries and keeps the operator table. Returns the evaluation of the new stack. |
| `Brain.CalculatorBrain.PerformOperation` | Calculator/CalculatorBrain.swift:83-88 | A known symbol appends exactly its registered operation. An unknown symbol leaves the stack unchanged. The operator table is kept. Either way it returns the evaluation of the resulting stack. |

## Left out

- The console output of `evaluate()` (Calculator/CalculatorBrain.swift:74) is
  not modelled. It has no effect on the result.
- IEEE-754 `Double` arithmetic is replaced by `int`. The argument order of
  each operation is kept exactly. What changes is the value:
  - ÷ is modelled by `Quotient`, which truncates toward zero and gives 0 for
    a zero divisor. `Double` gives a fraction, an infinity or NaN.
  - √ is modelled by `FloorSqrt`, which gives the floor of the square root,
    and 0 for a negative argument where `Double` gives NaN.
  - Overflow, rounding, infinities and NaN do not arise.
- `Brain.Quotient`: states truncated integer division, not the `Double`
  quotient, because the model has no floating point.
- `Brain.FloorSqrt`: states the floor square root, not the `Double` `sqrt`,
  because the model has no floating point.
- An operand's description is its integer in decimal, with a leading minus
  sign when negative. Swift writes a `Double`, so it would print `5.0` for 5.
  The operation descriptions (their symbols) are modelled exactly.
- The `Printable` conformance and Swift's closure shorthand are language
  details. The closures are modelled as Dafny lambdas stored in the tokens.
- Concurrency does not arise: the engine is single-threaded.
