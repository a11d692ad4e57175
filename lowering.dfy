/** The conversions of fishrambeta/src/parser.rs between `IR` and `Equation`
    (`ir_to_equation`, `equation_to_ir`) and from `IR` back to LaTeX (`ir_to_latex`). */
module Lowering {
  import opened Wrappers
  import opened Expressions
  import opened ParserBase

  const I64Max: int := 0x7FFF_FFFF_FFFF_FFFF

  function DigitValue(c: char): nat
    requires IsNumeric(c)
  {
    c as int - '0' as int
  }

  /** The value of a run of decimal digits. */
  function DigitsValue(s: seq<char>): nat
    requires forall i :: 0 <= i < |s| ==> IsNumeric(s[i])
  {
    if s == [] then 0 else DigitsValue(s[..|s| - 1]) * 10 + DigitValue(s[|s| - 1])
  }

  /** `str::parse::<i64>` on a string of digits: empty text and values past i64::MAX are
      errors. */
  function ParseI64(s: seq<char>): Result<int>
    requires forall i :: 0 <= i < |s| ==> IsNumeric(s[i])
  {
    if s == [] then Failure(ParseIntError)
    else if DigitsValue(s) > I64Max then Failure(ParseIntError)
    else Success(DigitsValue(s))
  }

  predicate AllNumeric(s: seq<char>) {
    forall i :: 0 <= i < |s| ==> IsNumeric(s[i])
  }

  /** The names ir_to_equation treats as operators. */
  predicate IsOperatorName(name: seq<char>) {
    name == "+" || name == "-" || name == "*" || name == "/" || name == "^"
  }

  /** A subtraction's operands as the model's Equation has no subtraction: the first
      operand, then each further one negated. */
  function NegateEach(cs: seq<Equation>): (r: seq<Equation>)
    ensures |r| == |cs|
    ensures forall i :: 0 <= i < |cs| ==> r[i] == Negative(cs[i])
  {
    if cs == [] then [] else [Negative(cs[0])] + NegateEach(cs[1..])
  }

  function Subtraction(cs: seq<Equation>): seq<Equation> {
    if cs == [] then [] else [cs[0]] + NegateEach(cs[1..])
  }

  /** `ir_to_equation`. A leaf made of digits is an i64 literal, any other leaf a letter;
      a node with another name and parameters is a todo!(). `/` and `^` with other than
      two parameters combine the first two and multiply the rest in. */
  function IrToEquation(ir: IR): Result<Equation>
    decreases ir, 1
  {
    if ir.name == "+" then
      var cs :- IrToEquationFrom(ir, 0);
      Success(Addition(cs))
    else if ir.name == "-" then
      var cs :- IrToEquationFrom(ir, 0);
      Success(Addition(Subtraction(cs)))
    else if ir.name == "*" then
      var cs :- IrToEquationFrom(ir, 0);
      Success(Multiplication(cs))
    else if ir.name == "/" || ir.name == "^" then
      var ps := ir.parameters;
      if |ps| == 0 then Failure(IndexOutOfBounds)
      else
        var a :- IrToEquation(ps[0]);
        if |ps| == 1 then Failure(IndexOutOfBounds)
        else
          var b :- IrToEquation(ps[1]);
          var combined := if ir.name == "/" then Division(a, b) else Power(a, b);
          if |ps| == 2 then Success(combined)
          else
            var more :- IrToEquationFrom(ir, 2);
            Success(Multiplication([combined] + more))
    else if ir.parameters == [] then
      if AllNumeric(ir.name) then
        var n :- ParseI64(ir.name);
        Success(Var(Integer(n)))
      else Success(Var(Letter(ir.name)))
    else Failure(Unsupported)
  }

  /** The parameters of ir from index i on, converted left to right. */
  function IrToEquationFrom(ir: IR, i: nat): (r: Result<seq<Equation>>)
    decreases ir, 0, |ir.parameters| - i
  {
    if i >= |ir.parameters| then Success([])
    else
      var first :- IrToEquation(ir.parameters[i]);
      var rest :- IrToEquationFrom(ir, i + 1);
      Success([first] + rest)
  }

  /** The parameters are converted one by one: success exactly when each converts, each
      result in place; a failure is the first failing parameter's. */
  lemma {:induction false} IrToEquationFromSpec(ir: IR, i: nat)
    requires i <= |ir.parameters|
    ensures IrToEquationFrom(ir, i).Success? <==>
      forall k :: i <= k < |ir.parameters| ==> IrToEquation(ir.parameters[k]).Success?
    ensures IrToEquationFrom(ir, i).Success? ==>
      |IrToEquationFrom(ir, i).value| == |ir.parameters| - i &&
      forall k :: i <= k < |ir.parameters| ==> IrToEquationFrom(ir, i).value[k - i] == IrToEquation(ir.parameters[k]).value
    ensures IrToEquationFrom(ir, i).Failure? ==>
      exists k :: i <= k < |ir.parameters| && IrToEquation(ir.parameters[k]) == Failure(IrToEquationFrom(ir, i).error) &&
        forall k' :: i <= k' < k ==> IrToEquation(ir.parameters[k']).Success?
    decreases |ir.parameters| - i
  {
    if i < |ir.parameters| {
      IrToEquationFromSpec(ir, i + 1);
      var first := IrToEquation(ir.parameters[i]);
      if first.Success? && IrToEquationFrom(ir, i + 1).Success? {
        var rest := IrToEquationFrom(ir, i + 1).value;
        assert IrToEquationFrom(ir, i).value == [first.value] + rest;
      } else if first.Success? {
        var k :| i + 1 <= k < |ir.parameters| && IrToEquation(ir.parameters[k]) == Failure(IrToEquationFrom(ir, i + 1).error) &&
          forall k' :: i + 1 <= k' < k ==> IrToEquation(ir.parameters[k']).Success?;
        assert forall k' :: i <= k' < k ==> IrToEquation(ir.parameters[k']).Success?;
      }
    }
  }

  /** The operator nodes the parser builds become the matching Equation nodes: a sum,
      a difference as a sum of negated operands, a product, and two-operand quotients and
      powers. */
  lemma {:induction false} BinaryLowering(op: char, l: IR, r: IR, b: BracketType)
    requires op in "+-*/^"
    ensures var e := IrToEquation(IR([op], [l, r], b));
      (IrToEquation(l).Success? && IrToEquation(r).Success? <==> e.Success?) &&
      (e.Success? ==>
        var a, c := IrToEquation(l).value, IrToEquation(r).value;
        e.value == (if op == '+' then Addition([a, c])
          else if op == '-' then Addition([a, Negative(c)])
          else if op == '*' then Multiplication([a, c])
          else if op == '/' then Division(a, c)
          else Power(a, c)))
  {
    var ir := IR([op], [l, r], b);
    IrToEquationFromSpec(ir, 0);
    if IrToEquationFrom(ir, 0).Success? {
      var cs := IrToEquationFrom(ir, 0).value;
      assert cs == [cs[0], cs[1]];
      assert Subtraction(cs) == [cs[0], Negative(cs[1])];
    }
  }

  /** A quotient or power node with more than two operands divides (or raises) the first
      by the second and multiplies the remaining operands in, in their order. */
  lemma {:induction false} NaryLowering(op: char, ps: seq<IR>, b: BracketType)
    requires (op == '/' || op == '^') && |ps| >= 3
    ensures var e := IrToEquation(IR([op], ps, b));
      (e.Success? <==> forall k :: 0 <= k < |ps| ==> IrToEquation(ps[k]).Success?) &&
      (e.Success? ==>
        var a, c := IrToEquation(ps[0]).value, IrToEquation(ps[1]).value;
        e.value.Multiplication? && |e.value.factors| == |ps| - 1 &&
        e.value.factors[0] == (if op == '/' then Division(a, c) else Power(a, c)) &&
        forall k :: 2 <= k < |ps| ==> e.value.factors[k - 1] == IrToEquation(ps[k]).value)
  {
    var ir := IR([op], ps, b);
    IrToEquationFromSpec(ir, 2);
  }

  /** A quotient or power node with fewer than two operands fails: with none at once on
      the first `remove(0)`, with one after converting it, on the second. */
  lemma {:induction false} ShortLowering(op: char, ps: seq<IR>, b: BracketType)
    requires (op == '/' || op == '^') && |ps| <= 1
    ensures IrToEquation(IR([op], ps, b)).Failure?
    ensures ps == [] || IrToEquation(ps[0]).Success? ==>
      IrToEquation(IR([op], ps, b)) == Failure(IndexOutOfBounds)
    ensures |ps| == 1 && IrToEquation(ps[0]).Failure? ==>
      IrToEquation(IR([op], ps, b)) == IrToEquation(ps[0])
  {
  }

  /** A node that is not an operator and has parameters, such as `frac` or `sqrt`, is
      not converted: the source reaches `todo!()`. */
  lemma {:induction false} CommandLowering(name: seq<char>, ps: seq<IR>, b: BracketType)
    requires !IsOperatorName(name) && ps != []
    ensures IrToEquation(IR(name, ps, b)) == Failure(Unsupported)
  {
  }

  /** A leaf becomes an integer when it is made of digits and fits an i64, an error when
      it is made of digits otherwise, and a letter with the same text in every other
      case (an operator name aside). */
  lemma {:induction false} LeafLowering(name: seq<char>, b: BracketType)
    requires !IsOperatorName(name)
    ensures AllNumeric(name) && name != [] && DigitsValue(name) <= I64Max ==>
      IrToEquation(IR(name, [], b)) == Success(Var(Integer(DigitsValue(name))))
    ensures AllNumeric(name) && (name == [] || DigitsValue(name) > I64Max) ==>
      IrToEquation(IR(name, [], b)) == Failure(ParseIntError)
    ensures !AllNumeric(name) ==> IrToEquation(IR(name, [], b)) == Success(Var(Letter(name)))
  {
  }

  // ---------------------------------------------------------------------------
  // equation_to_ir

  function DigitChar(d: nat): char
    requires d < 10
  {
    ('0' as int + d) as char
  }

  /** `i64::to_string` for a non-negative value. */
  function NatToString(n: nat): (r: seq<char>)
    ensures |r| > 0 && AllNumeric(r)
    decreases n
  {
    if n < 10 then [DigitChar(n)] else NatToString(n / 10) + [DigitChar(n % 10)]
  }

  function IntToString(n: int): seq<char> {
    if n < 0 then "-" + NatToString(-n) else NatToString(n)
  }

  /** Reading back the decimal text gives the number. */
  lemma {:induction false} NatToStringRoundTrip(n: nat)
    ensures DigitsValue(NatToString(n)) == n
    decreases n
  {
    if n >= 10 {
      NatToStringRoundTrip(n / 10);
      var s := NatToString(n);
      assert s[..|s| - 1] == NatToString(n / 10);
    }
  }

  function IntegerIr(n: int): IR {
    IR(IntToString(n), [], NoBracket)
  }

  /** `equation_to_ir`: only variables have a representation; every other node is a
      todo!(). */
  function EquationToIr(e: Equation): Result<IR> {
    match e
    case Var(Letter(l)) => Success(IR(l, [], NoBracket))
    case Var(Integer(n)) => Success(IntegerIr(n))
    case Var(Vector(v)) => Success(IR("\\vec{" + v + "}", [], NoBracket))
    case Var(Rational(p, q)) => Success(IR("\\frac", [IntegerIr(p), IntegerIr(q)], Curly))
    case Var(Constant(PI)) => Success(IR("\\pi", [], NoBracket))
    case Var(Constant(E)) => Success(IR("e", [], NoBracket))
    case _ => Failure(Unsupported)
  }

  /** Going to the IR and back: a non-negative i64 and a letter that is neither digits
      nor an operator name come back unchanged; a negative integer comes back as the
      letter of its text, a letter that is all digits as an integer, pi as the letter
      `\pi`; a rational and every non-variable do not come back. */
  lemma {:induction false} RoundTrip(e: Equation)
    ensures e.Var? && e.v.Integer? && 0 <= e.v.n <= I64Max ==>
      EquationToIr(e).Success? && IrToEquation(EquationToIr(e).value) == Success(e)
    ensures e.Var? && e.v.Integer? && e.v.n < 0 ==>
      IrToEquation(EquationToIr(e).value) == Success(Var(Letter(IntToString(e.v.n))))
    ensures e.Var? && e.v.Letter? && !IsOperatorName(e.v.name) && !AllNumeric(e.v.name) ==>
      IrToEquation(EquationToIr(e).value) == Success(e)
    ensures e.Var? && e.v.Letter? && e.v.name != [] && AllNumeric(e.v.name) && DigitsValue(e.v.name) <= I64Max ==>
      IrToEquation(EquationToIr(e).value) == Success(Var(Integer(DigitsValue(e.v.name))))
    ensures e == Var(Constant(PI)) ==> IrToEquation(EquationToIr(e).value) == Success(Var(Letter("\\pi")))
    ensures e == Var(Constant(E)) ==> IrToEquation(EquationToIr(e).value) == Success(Var(Letter("e")))
    ensures e.Var? && e.v.Rational? ==> IrToEquation(EquationToIr(e).value) == Failure(Unsupported)
    ensures !e.Var? ==> EquationToIr(e) == Failure(Unsupported)
  {
    if e.Var? && e.v.Integer? {
      var n := e.v.n;
      if n >= 0 {
        NatToStringRoundTrip(n);
        assert NatToString(n) != "+" && NatToString(n) != "-" && NatToString(n) != "*"
          && NatToString(n) != "/" && NatToString(n) != "^" by {
          assert IsNumeric(NatToString(n)[0]);
        }
      } else {
        var s := IntToString(n);
        assert s[0] == '-' && !IsNumeric(s[0]);
        assert |s| > 1;
      }
    }
    if e == Var(Constant(PI)) {
      assert !IsNumeric("\\pi"[0]);
    }
  }

  // ---------------------------------------------------------------------------
  // ir_to_latex

  predicate IsLatexOperator(name: seq<char>) {
    name == "+" || name == "-" || name == "*" || name == "/"
  }

  /** `ir_to_latex`: an operator node writes each parameter in its brackets, separated by
      the operator; every other node is a todo!(). */
  function IrToLatex(ir: IR, implicitMultiplication: bool): Result<seq<char>>
    decreases ir, 1
  {
    if IsLatexOperator(ir.name) then
      if |ir.parameters| == 0 then Failure(IndexOutOfBounds)
      else
        var p := ir.parameters[0];
        var first :- IrToLatex(p, implicitMultiplication);
        IrToLatexFrom(ir, 1, implicitMultiplication,
          [OpeningBracket(p.surroundingBrackets)] + first + [ClosingBracket(p.surroundingBrackets)])
    else Failure(Unsupported)
  }

  function IrToLatexFrom(ir: IR, i: nat, implicitMultiplication: bool, out: seq<char>): Result<seq<char>>
    requires IsLatexOperator(ir.name)
    decreases ir, 0, |ir.parameters| - i
  {
    if i >= |ir.parameters| then Success(out)
    else
      var p := ir.parameters[i];
      var next :- IrToLatex(p, implicitMultiplication);
      IrToLatexFrom(ir, i + 1, implicitMultiplication,
        out + [ir.name[0], OpeningBracket(p.surroundingBrackets)] + next + [ClosingBracket(p.surroundingBrackets)])
  }

  /** The emitter never produces text: a leaf reaches the todo!() and a node without
      parameters the index error, and an operator node fails as soon as its first
      parameter does. */
  lemma {:induction false} IrToLatexFails(ir: IR, implicitMultiplication: bool)
    ensures IrToLatex(ir, implicitMultiplication).Failure?
    ensures !IsLatexOperator(ir.name) ==> IrToLatex(ir, implicitMultiplication) == Failure(Unsupported)
    decreases ir
  {
    if IsLatexOperator(ir.name) && |ir.parameters| > 0 {
      IrToLatexFails(ir.parameters[0], implicitMultiplication);
    }
  }

  /** `equation_to_latex`. */
  function EquationToLatex(e: Equation, implicitMultiplication: bool): Result<seq<char>> {
    var ir :- EquationToIr(e);
    IrToLatex(ir, implicitMultiplication)
  }

  /** Every equation_to_latex fails: a variable's IR is a leaf (a letter named like an
      operator a node without parameters), and every other node has no IR. */
  lemma {:induction false} EquationToLatexFails(e: Equation, implicitMultiplication: bool)
    ensures EquationToLatex(e, implicitMultiplication).Failure?
  {
    if EquationToIr(e).Success? {
      IrToLatexFails(EquationToIr(e).value, implicitMultiplication);
    }
  }

  /** ir_to_latex as written, draining the parameter vector in a loop. */
  method IrToLatexLoop(ir: IR, implicitMultiplication: bool) returns (r: Result<seq<char>>)
    ensures r == IrToLatex(ir, implicitMultiplication)
    decreases ir
  {
    if !IsLatexOperator(ir.name) {
      return Failure(Unsupported);
    }
    var parameters := ir.parameters;
    if |parameters| == 0 {
      return Failure(IndexOutOfBounds);
    }
    var returnData: seq<char> := [OpeningBracket(parameters[0].surroundingBrackets)];
    var closingBracket := ClosingBracket(parameters[0].surroundingBrackets);
    var first := IrToLatexLoop(parameters[0], implicitMultiplication);
    if first.Failure? {
      return Failure(first.error);
    }
    returnData := returnData + first.value + [closingBracket];
    parameters := parameters[1..];
    while |parameters| > 0
      invariant |parameters| <= |ir.parameters|
      invariant parameters == ir.parameters[|ir.parameters| - |parameters|..]
      invariant IrToLatex(ir, implicitMultiplication) ==
        IrToLatexFrom(ir, |ir.parameters| - |parameters|, implicitMultiplication, returnData)
      decreases |parameters|
    {
      var p := parameters[0];
      assert p == ir.parameters[|ir.parameters| - |parameters|];
      returnData := returnData + [ir.name[0], OpeningBracket(p.surroundingBrackets)];
      closingBracket := ClosingBracket(p.surroundingBrackets);
      var next := IrToLatexLoop(p, implicitMultiplication);
      if next.Failure? {
        return Failure(next.error);
      }
      returnData := returnData + next.value + [closingBracket];
      parameters := parameters[1..];
    }
    return Success(returnData);
  }
}
