/**
  The token model of the calculator: a stack entry is a literal operand, a
  named unary operation or a named binary operation. Operations carry the
  function they apply; the symbol is only used for display.
 */
module Ops {
  import opened Wrappers

  datatype Op =
    | Operand(value: int)
    | UnaryOperation(symbol: string, unaryFn: int -> int)
    | BinaryOperation(symbol: string, binaryFn: (int, int) -> int)
  {
    /**
      The printable form of a token: an operation's symbol, and for an
      operand decimal text that reads back as exactly its value.
     */
    function Description(): (d: string)
      ensures !Operand? ==> d == symbol
      ensures Operand? ==> ParseDecimal(d) == Some(value)
    {
      match this
      case Operand(operand) =>
        DecimalRoundTrip(operand);
        DecimalString(operand)
      case UnaryOperation(symbol, _) => symbol
      case BinaryOperation(symbol, _) => symbol
    }
  }

  predicate AllDigits(s: string)
  {
    forall i :: 0 <= i < |s| ==> '0' <= s[i] <= '9'
  }

  /** A non-empty run of digits without a leading zero (a lone "0" is allowed). */
  predicate Canonical(s: string)
  {
    |s| > 0 && AllDigits(s) && (|s| == 1 || s[0] != '0')
  }

  function DigitChar(d: nat): (c: char)
    requires d < 10
    ensures '0' <= c <= '9' && c as int - '0' as int == d
  {
    ('0' as int + d) as char
  }

  /** The decimal digits of a natural number, most significant first. */
  function NatString(n: nat): (s: string)
    ensures Canonical(s)
    ensures (s[0] == '0') == (n == 0)
  {
    if n < 10 then [DigitChar(n)] else NatString(n / 10) + [DigitChar(n % 10)]
  }

  /** Decimal form of an integer: a minus sign in front of negative numbers. */
  function DecimalString(v: int): string
  {
    if v < 0 then "-" + NatString(-v) else NatString(v)
  }

  /** The number a string of decimal digits denotes. */
  function DigitsValue(s: string): nat
    requires AllDigits(s)
  {
    if s == [] then 0
    else DigitsValue(s[..|s| - 1]) * 10 + (s[|s| - 1] as int - '0' as int)
  }

  /** Reads decimal text in exactly the form DecimalString writes; anything else gives None. */
  function ParseDecimal(s: string): Option<int>
  {
    if s != [] && s[0] == '-' then
      if Canonical(s[1..]) && s[1] != '0' then Some(-(DigitsValue(s[1..]) as int)) else None
    else if Canonical(s) then Some(DigitsValue(s))
    else None
  }

  lemma {:induction false} NatStringRoundTrip(n: nat)
    ensures DigitsValue(NatString(n)) == n
  {
    if n >= 10 {
      var s := NatString(n);
      assert s[..|s| - 1] == NatString(n / 10);
      NatStringRoundTrip(n / 10);
    }
  }

  /** Digits that do not start with '0' denote a positive number. */
  lemma {:induction false} LeadingDigitPositive(s: string)
    requires |s| > 0 && AllDigits(s) && s[0] != '0'
    ensures DigitsValue(s) > 0
  {
    if |s| > 1 {
      LeadingDigitPositive(s[..|s| - 1]);
    }
  }

  /** Canonical digits are exactly what NatString writes for the number they denote. */
  lemma {:induction false} CanonicalRoundTrip(s: string)
    requires Canonical(s)
    ensures NatString(DigitsValue(s)) == s
  {
    var n := DigitsValue(s);
    if |s| > 1 {
      var front := s[..|s| - 1];
      var d := s[|s| - 1] as int - '0' as int;
      LeadingDigitPositive(front);
      CanonicalRoundTrip(front);
      assert n / 10 == DigitsValue(front) && n % 10 == d;
      assert NatString(n) == NatString(DigitsValue(front)) + [DigitChar(d)];
    }
  }

  /** Decimal text reads back as the integer it was written for. */
  lemma DecimalRoundTrip(v: int)
    ensures ParseDecimal(DecimalString(v)) == Some(v)
  {
    var s := DecimalString(v);
    if v < 0 {
      var digits := NatString(-v);
      assert s == "-" + digits;
      assert s[1..] == digits;
      NatStringRoundTrip(-v);
      assert ParseDecimal(s) == Some(-(DigitsValue(digits) as int));
    } else {
      assert s == NatString(v);
      assert '0' <= s[0] <= '9';
      NatStringRoundTrip(v);
      assert ParseDecimal(s) == Some(DigitsValue(s) as int);
    }
  }

  /** Conversely, any text that parses is the decimal text of its value. */
  lemma ParseDecimalCanonical(s: string)
    requires ParseDecimal(s).Some?
    ensures DecimalString(ParseDecimal(s).value) == s
  {
    if s != [] && s[0] == '-' {
      var digits := s[1..];
      LeadingDigitPositive(digits);
      CanonicalRoundTrip(digits);
      assert s == "-" + digits;
    } else {
      CanonicalRoundTrip(s);
    }
  }

  /** Distinct operands have distinct descriptions. */
  lemma OperandDescriptionInjective(v: int, w: int)
    requires Operand(v).Description() == Operand(w).Description()
    ensures v == w
  {
  }
}
