/**
  The calculator engine: the table of known operations, filled once at
  construction, and the operand/operation stack that every push appends to
  and then evaluates afresh.
 */
module Brain {
  import opened Wrappers
  import opened Ops
  import Evaluator

  function Abs(x: int): nat
  {
    if x < 0 then -x else x
  }

  /**
    Integer stand-in for `b / a`: the quotient truncated toward zero, and 0
    for a zero divisor.
   */
  function Quotient(dividend: int, divisor: int): (q: int)
    ensures divisor == 0 ==> q == 0
    ensures divisor != 0 ==> Abs(q) * Abs(divisor) <= Abs(dividend) < (Abs(q) + 1) * Abs(divisor)
    ensures q != 0 ==> (q < 0 <==> (dividend < 0) != (divisor < 0))
  {
    if divisor == 0 then 0
    else
      var m := Abs(dividend) / Abs(divisor);
      DivisionBounds(Abs(dividend), Abs(divisor));
      if (dividend < 0) == (divisor < 0) then m else -m
  }

  /** Natural division rounds down: the quotient times the divisor is at most the dividend, less than one divisor below it. */
  lemma DivisionBounds(a: nat, b: nat)
    requires b > 0
    ensures (a / b) * b <= a < (a / b + 1) * b
  {
    var m, r := a / b, a % b;
    assert a == m * b + r && 0 <= r < b;
    assert (m + 1) * b == m * b + b;
  }

  /** The contract of Quotient determines its result: truncated division has one answer. */
  lemma QuotientUnique(dividend: int, divisor: int, q: int)
    requires divisor != 0
    requires Abs(q) * Abs(divisor) <= Abs(dividend) < (Abs(q) + 1) * Abs(divisor)
    requires q != 0 ==> (q < 0 <==> (dividend < 0) != (divisor < 0))
    ensures q == Quotient(dividend, divisor)
  {
    var r := Quotient(dividend, divisor);
    var b := Abs(divisor);
    if Abs(q) < Abs(r) {
      MultiplyMonotone(Abs(q) + 1, Abs(r), b);
    } else if Abs(r) < Abs(q) {
      MultiplyMonotone(Abs(r) + 1, Abs(q), b);
    }
  }

  lemma MultiplyMonotone(a: nat, c: nat, b: nat)
    requires a <= c
    ensures a * b <= c * b
  {
  }

  /** The largest `r` with `r * r <= x`, counting up from `r`. */
  function SqrtFrom(x: nat, r: nat): (s: nat)
    requires r * r <= x
    ensures s * s <= x < (s + 1) * (s + 1)
    decreases x - r * r
  {
    if (r + 1) * (r + 1) <= x then SqrtFrom(x, r + 1) else r
  }

  /** Integer stand-in for `sqrt`: the floor of the square root, and 0 below zero. */
  function FloorSqrt(x: int): (r: nat)
    ensures x >= 0 ==> r * r <= x < (r + 1) * (r + 1)
    ensures x < 0 ==> r == 0
  {
    if x < 0 then 0 else SqrtFrom(x, 0)
  }

  // The five registered operations. ÷ and − receive the operand evaluated
  // first (the one nearer the operator) as their first argument and compute
  // `$1 / $0` and `$1 - $0`.
  const Times: Op := BinaryOperation("×", (a, b) => a * b)
  const Divide: Op := BinaryOperation("÷", (a, b) => Quotient(b, a))
  const Plus: Op := BinaryOperation("+", (a, b) => a + b)
  const Minus: Op := BinaryOperation("−", (a, b) => b - a)
  const SquareRoot: Op := UnaryOperation("√", a => FloorSqrt(a))

  /** The operations the calculator knows, by symbol. */
  function KnownOps(): (table: map<string, Op>)
    ensures table.Keys == {"×", "÷", "+", "−", "√"}
    ensures forall s :: s in table ==> !table[s].Operand? && table[s].Description() == s
  {
    map["×" := Times, "÷" := Divide, "+" := Plus, "−" := Minus, "√" := SquareRoot]
  }

  /** The argument order of the registered operations. */
  lemma OperatorSemantics(a: int, b: int)
    ensures KnownOps()["×"].binaryFn(a, b) == a * b
    ensures KnownOps()["÷"].binaryFn(a, b) == Quotient(b, a)
    ensures KnownOps()["+"].binaryFn(a, b) == a + b
    ensures KnownOps()["−"].binaryFn(a, b) == b - a
    ensures KnownOps()["√"].unaryFn(a) == FloorSqrt(a)
  {
  }

  /**
    Because − swaps its arguments, pushing `x`, then `y`, then − computes
    `x − y`, as in ordinary reverse-Polish notation, whatever expressions `x`
    and `y` are.
   */
  lemma MinusOrder(below: seq<Op>, x: Evaluator.Expr, y: Evaluator.Expr)
    ensures Evaluator.Evaluate(below + Evaluator.Postfix(x) + Evaluator.Postfix(y) + [Minus]) ==
            Evaluator.Evaluation(Some(Evaluator.Value(x) - Evaluator.Value(y)), below)
  {
    var difference := Evaluator.Binary("−", Minus.binaryFn, y, x);
    assert below + Evaluator.Postfix(x) + Evaluator.Postfix(y) + [Minus] ==
           below + Evaluator.Postfix(difference)
    by {
      Evaluator.PushBinary(below, "−", Minus.binaryFn, y, x);
    }
    assert Evaluator.Value(difference) == Evaluator.Value(x) - Evaluator.Value(y);
    Evaluator.EvaluatePostfix(below, difference);
  }

  /** Likewise pushing `x`, then `y`, then ÷ computes `x ÷ y`. */
  lemma DivideOrder(below: seq<Op>, x: Evaluator.Expr, y: Evaluator.Expr)
    ensures Evaluator.Evaluate(below + Evaluator.Postfix(x) + Evaluator.Postfix(y) + [Divide]) ==
            Evaluator.Evaluation(Some(Quotient(Evaluator.Value(x), Evaluator.Value(y))), below)
  {
    var quotient := Evaluator.Binary("÷", Divide.binaryFn, y, x);
    assert below + Evaluator.Postfix(x) + Evaluator.Postfix(y) + [Divide] ==
           below + Evaluator.Postfix(quotient)
    by {
      Evaluator.PushBinary(below, "÷", Divide.binaryFn, y, x);
    }
    assert Evaluator.Value(quotient) == Quotient(Evaluator.Value(x), Evaluator.Value(y));
    Evaluator.EvaluatePostfix(below, quotient);
  }

  /**
    The stack `a b −` evaluates to `a − b` and consumes everything, so `5 2 −`
    gives 3 and `2 3 −` gives −1.
   */
  lemma OperandsMinus(a: int, b: int)
    ensures Evaluator.Evaluate([Operand(a), Operand(b), KnownOps()["−"]]) ==
            Evaluator.Evaluation(Some(a - b), [])
  {
  }

  /** The stack `a b +` evaluates to `a + b` and consumes everything. */
  lemma OperandsPlus(a: int, b: int)
    ensures Evaluator.Evaluate([Operand(a), Operand(b), KnownOps()["+"]]) ==
            Evaluator.Evaluation(Some(a + b), [])
  {
  }

  /** The floor square root of a perfect square is its root. */
  lemma {:induction false} FloorSqrtOfSquare(n: nat)
    ensures FloorSqrt(n * n) == n
  {
    var r := FloorSqrt(n * n);
    if r < n {
      SquareMonotone(r + 1, n);
    } else if n < r {
      SquareMonotone(n, r);
    }
  }

  /** Squaring is monotone on the naturals. */
  lemma SquareMonotone(a: nat, b: nat)
    requires a <= b
    ensures a * a <= b * b
    ensures a < b ==> a * a < b * b
  {
  }

  /** The stack `16 √` evaluates to 4. */
  lemma SixteenSquareRoot()
    ensures Evaluator.Evaluate([Operand(16), KnownOps()["√"]]) == Evaluator.Evaluation(Some(4), [])
  {
    FloorSqrtOfSquare(4);
  }

  class CalculatorBrain {
    var opStack: seq<Op>
    const knownOps: map<string, Op>

    /** The operator table is always the five registered operations. */
    ghost predicate Valid()
      reads this
    {
      knownOps == KnownOps()
    }

    /** Starts with an empty stack and registers the five operations. */
    constructor ()
      ensures Valid()
      ensures opStack == []
      ensures knownOps == KnownOps()
    {
      var table: map<string, Op> := map[];
      table := table["×" := Times];
      table := table["÷" := Divide];
      table := table["+" := Plus];
      table := table["−" := Minus];
      table := table["√" := SquareRoot];
      knownOps := table;
      opStack := [];
    }

    /** Evaluates the whole stack from scratch; the stack itself is left alone. */
    method Evaluate() returns (result: Option<int>)
      requires Valid()
      ensures result == Evaluator.Evaluate(opStack).result
    {
      var evaluation := Evaluator.Evaluate(opStack);
      result := evaluation.result;
    }

    /** Appends one operand and returns the value of the new stack. */
    method PushOperand(operand: int) returns (result: Option<int>)
      requires Valid()
      modifies this
      ensures Valid()
      ensures opStack == old(opStack) + [Operand(operand)]
      ensures result == Evaluator.Evaluate(opStack).result
    {
      opStack := opStack + [Operand(operand)];
      result := Evaluate();
    }

    /**
      Appends the operation registered under `symbol`, if there is one (an
      unknown symbol leaves the stack as it was), and returns the value of
      the stack.
     */
    method PerformOperation(symbol: string) returns (result: Option<int>)
      requires Valid()
      modifies this
      ensures Valid()
      ensures symbol in knownOps ==> opStack == old(opStack) + [knownOps[symbol]]
      ensures symbol !in knownOps ==> opStack == old(opStack)
      ensures result == Evaluator.Evaluate(opStack).result
    {
      if symbol in knownOps {
        opStack := opStack + [knownOps[symbol]];
      }
      result := Evaluate();
    }
  }

  /** What a client can conclude from the contracts alone: an empty engine has no result, not even after "+". */
  method EmptyScenario()
  {
    var brain := new CalculatorBrain();
    var r := brain.Evaluate();
    Evaluator.EmptyHasNoResult();
    assert r == None;
    r := brain.PerformOperation("+");
    Evaluator.LoneOperationFails(Plus);
    assert r == None;
  }

  /** `5 2 −` gives 3; evaluating again, or performing an unknown symbol, gives 3 again. */
  method MinusScenario()
  {
    var brain := new CalculatorBrain();
    var r := brain.PushOperand(5);
    r := brain.PushOperand(2);
    r := brain.PerformOperation("−");
    OperandsMinus(5, 2);
    assert r == Some(3);
    var again := brain.Evaluate();
    assert again == r;
    r := brain.PerformOperation("%");
    assert r == Some(3);
  }

  /** `3 4 +` gives 7. */
  method PlusScenario()
  {
    var brain := new CalculatorBrain();
    var r := brain.PushOperand(3);
    r := brain.PushOperand(4);
    r := brain.PerformOperation("+");
    OperandsPlus(3, 4);
    assert r == Some(7);
  }

  /** For any engine satisfying its invariant, "+" appends exactly the registered addition. */
  method PlusOnAnyEngine(brain: CalculatorBrain)
    requires brain.Valid()
    modifies brain
  {
    var r := brain.PerformOperation("+");
    assert brain.opStack == old(brain.opStack) + [Plus];
  }

  /** `16 √` gives 4. */
  method SquareRootScenario()
  {
    var brain := new CalculatorBrain();
    var r := brain.PushOperand(16);
    r := brain.PerformOperation("√");
    SixteenSquareRoot();
    assert r == Some(4);
  }
}
