/**
  The recursive postfix evaluator of CalculatorBrain: it takes the last token
  of a stack and, for an operation, evaluates what lies below it once (unary)
  or twice (binary). It returns a result or nothing, together with the tokens
  it did not consume; on any failure it hands back its whole input.
 */
module Evaluator {
  import opened Wrappers
  import opened Ops

  /** The pair `(result, remainingOps)` that evaluation returns. */
  datatype Evaluation = Evaluation(result: Option<int>, remainingOps: seq<Op>)

  ghost predicate IsStrictPrefix(p: seq<Op>, s: seq<Op>)
  {
    |p| < |s| && p == s[..|p|]
  }

  /**
    Evaluates `ops` from its end. A success consumes at least the last token,
    so what is left is a strict prefix of the input; this is also what makes
    the recursion terminate. A failure leaves the input as it was.
   */
  function Evaluate(ops: seq<Op>): (r: Evaluation)
    ensures r.result.Some? ==> IsStrictPrefix(r.remainingOps, ops)
    ensures r.result.None? ==> r.remainingOps == ops
    decreases |ops|
  {
    if ops != [] then
      var remainingOps := ops[..|ops| - 1];
      match ops[|ops| - 1]
      case Operand(operand) =>
        Evaluation(Some(operand), remainingOps)
      case UnaryOperation(_, operation) =>
        var operandEvaluation := Evaluate(remainingOps);
        if operandEvaluation.result.Some? then
          Evaluation(Some(operation(operandEvaluation.result.value)), operandEvaluation.remainingOps)
        else
          Evaluation(None, ops)
      case BinaryOperation(_, operation) =>
        var op1Evaluation := Evaluate(remainingOps);
        if op1Evaluation.result.Some? then
          var op2Evaluation := Evaluate(op1Evaluation.remainingOps);
          if op2Evaluation.result.Some? then
            Evaluation(Some(operation(op1Evaluation.result.value, op2Evaluation.result.value)),
                       op2Evaluation.remainingOps)
          else
            Evaluation(None, ops)
        else
          Evaluation(None, ops)
    else
      Evaluation(None, ops)
  }

  /** An empty stack has no result and nothing is consumed. */
  lemma EmptyHasNoResult()
    ensures Evaluate([]) == Evaluation(None, [])
  {
  }

  /** An operand on top is the result; the tokens below it are left over. */
  lemma OperandOnTop(below: seq<Op>, v: int)
    ensures Evaluate(below + [Operand(v)]) == Evaluation(Some(v), below)
  {
  }

  /** A unary operation applies its function to the value of what lies below it. */
  lemma UnaryStep(below: seq<Op>, symbol: string, operation: int -> int)
    ensures var arg := Evaluate(below);
            var r := Evaluate(below + [UnaryOperation(symbol, operation)]);
            (r.result.Some? <==> arg.result.Some?) &&
            (arg.result.Some? ==> r.result == Some(operation(arg.result.value)) &&
                                  r.remainingOps == arg.remainingOps)
  {
  }

  /**
    A binary operation is applied as `operation(operand1, operand2)`, where
    `operand1` is the value of the tokens just below the operator and
    `operand2` the value of what is left after them.
   */
  lemma BinaryStep(below: seq<Op>, symbol: string, operation: (int, int) -> int)
    ensures var op1 := Evaluate(below);
            var op2 := Evaluate(op1.remainingOps);
            var r := Evaluate(below + [BinaryOperation(symbol, operation)]);
            (r.result.Some? <==> op1.result.Some? && op2.result.Some?) &&
            (r.result.Some? ==> r.result == Some(operation(op1.result.value, op2.result.value)) &&
                                r.remainingOps == op2.remainingOps)
  {
  }

  /** An operation with nothing beneath it, such as "+" on an empty stack, has no result. */
  lemma LoneOperationFails(op: Op)
    requires !op.Operand?
    ensures Evaluate([op]) == Evaluation(None, [op])
  {
  }

  /**
    An independent reference for what a stack means: an expression tree.
    For a binary node, `first` is the operand evaluated first, the one that
    sits directly below the operator on the stack.
   */
  datatype Expr =
    | Literal(value: int)
    | Unary(symbol: string, unaryFn: int -> int, arg: Expr)
    | Binary(symbol: string, binaryFn: (int, int) -> int, first: Expr, second: Expr)

  function Value(e: Expr): int
  {
    match e
    case Literal(v) => v
    case Unary(_, f, a) => f(Value(a))
    case Binary(_, f, x, y) => f(Value(x), Value(y))
  }

  /** The tokens that denote an expression, in the order they are pushed. */
  function Postfix(e: Expr): seq<Op>
  {
    match e
    case Literal(v) => [Operand(v)]
    case Unary(s, f, a) => Postfix(a) + [UnaryOperation(s, f)]
    case Binary(s, f, x, y) => Postfix(y) + Postfix(x) + [BinaryOperation(s, f)]
  }

  /**
    Soundness: whatever lies below it, the postfix form of an expression on
    top of the stack evaluates to the expression's value and consumes exactly
    its own tokens.
   */
  lemma {:induction false} EvaluatePostfix(below: seq<Op>, e: Expr)
    ensures Evaluate(below + Postfix(e)) == Evaluation(Some(Value(e)), below)
    decreases e
  {
    match e
    case Literal(v) =>
      OperandOnTop(below, v);
    case Unary(s, f, a) =>
      assert below + Postfix(e) == (below + Postfix(a)) + [UnaryOperation(s, f)];
      EvaluatePostfix(below, a);
      UnaryStep(below + Postfix(a), s, f);
    case Binary(s, f, x, y) =>
      assert below + Postfix(e) == (below + Postfix(y) + Postfix(x)) + [BinaryOperation(s, f)];
      EvaluatePostfix(below + Postfix(y), x);
      EvaluatePostfix(below, y);
      BinaryStep(below + Postfix(y) + Postfix(x), s, f);
  }

  /**
    Completeness: a successful evaluation has consumed the postfix form of
    some expression, and its result is that expression's value.
   */
  lemma {:induction false} EvaluateParses(ops: seq<Op>)
    requires Evaluate(ops).result.Some?
    ensures exists e :: ops == Evaluate(ops).remainingOps + Postfix(e) &&
                        Evaluate(ops).result == Some(Value(e))
    decreases |ops|
  {
    var below := ops[..|ops| - 1];
    var top := ops[|ops| - 1];
    assert ops == below + [top];
    var r := Evaluate(ops);
    match top
    case Operand(v) =>
      assert ops == r.remainingOps + Postfix(Literal(v));
    case UnaryOperation(s, f) =>
      UnaryStep(below, s, f);
      var arg := Evaluate(below);
      EvaluateParses(below);
      var a :| below == arg.remainingOps + Postfix(a) && arg.result == Some(Value(a));
      assert ops == r.remainingOps + Postfix(Unary(s, f, a)) by {
        PushUnary(arg.remainingOps, s, f, a);
      }
      assert r.result == Some(Value(Unary(s, f, a)));
    case BinaryOperation(s, f) =>
      BinaryStep(below, s, f);
      var op1 := Evaluate(below);
      EvaluateParses(below);
      var x :| below == op1.remainingOps + Postfix(x) && op1.result == Some(Value(x));
      var op2 := Evaluate(op1.remainingOps);
      EvaluateParses(op1.remainingOps);
      var y :| op1.remainingOps == op2.remainingOps + Postfix(y) && op2.result == Some(Value(y));
      assert ops == r.remainingOps + Postfix(Binary(s, f, x, y)) by {
        PushBinary(op2.remainingOps, s, f, x, y);
      }
      assert r.result == Some(Value(Binary(s, f, x, y)));
  }

  lemma PushUnary(rest: seq<Op>, s: string, f: int -> int, a: Expr)
    ensures (rest + Postfix(a)) + [UnaryOperation(s, f)] == rest + Postfix(Unary(s, f, a))
  {
  }

  lemma PushBinary(rest: seq<Op>, s: string, f: (int, int) -> int, x: Expr, y: Expr)
    ensures ((rest + Postfix(y)) + Postfix(x)) + [BinaryOperation(s, f)] == rest + Postfix(Binary(s, f, x, y))
  {
  }

  /** A stack has a result exactly when it ends with the postfix form of an expression. */
  lemma HasResultIffEndsInExpression(ops: seq<Op>)
    ensures Evaluate(ops).result.Some? <==> exists below, e :: ops == below + Postfix(e)
  {
    if Evaluate(ops).result.Some? {
      EvaluateParses(ops);
    }
    if exists below, e :: ops == below + Postfix(e) {
      var below, e :| ops == below + Postfix(e);
      EvaluatePostfix(below, e);
    }
  }

  /**
    A successful evaluation only looks at the tokens it consumes: putting
    more tokens underneath changes neither the result nor what it consumes.
   */
  lemma PrefixIndependence(below: seq<Op>, ops: seq<Op>)
    requires Evaluate(ops).result.Some?
    ensures Evaluate(below + ops) ==
            Evaluation(Evaluate(ops).result, below + Evaluate(ops).remainingOps)
  {
    EvaluateParses(ops);
    var e :| ops == Evaluate(ops).remainingOps + Postfix(e) &&
             Evaluate(ops).result == Some(Value(e));
    assert below + ops == (below + Evaluate(ops).remainingOps) + Postfix(e);
    EvaluatePostfix(below + Evaluate(ops).remainingOps, e);
  }
}
