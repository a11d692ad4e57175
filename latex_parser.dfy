/** `latex_to_ir`, `get_first_parameter`, `get_super_and_subscript`, `cleanup_latex` and
    `latex_to_equation` of fishrambeta/src/parser.rs. A `panic!`, a `todo!()` or an
    index past the end of the text is a `Failure`. */
module LatexParser {
  import opened Wrappers
  import opened Expressions
  import opened ParserBase
  import opened OperatorScan
  import opened Lowering

  // ---------------------------------------------------------------------------
  // The command after a backslash

  /** The characters that end a command's name. */
  predicate StopsCommand(c: char) {
    c == '{' || c == '(' || c == '[' || c == '^' || c == '_'
  }

  /** The length of the command name at the start of s. */
  function CommandLength(s: seq<char>): (r: nat)
    ensures r <= |s|
    ensures r < |s| ==> StopsCommand(s[r])
    ensures forall j :: 0 <= j < r ==> !StopsCommand(s[j])
  {
    if s == [] || StopsCommand(s[0]) then 0 else 1 + CommandLength(s[1..])
  }

  /** The loop after the backslash: (command, rest). The loop's first look at `latex[0]`
      fails on empty text. */
  function CommandSplit(s: seq<char>): Result<(seq<char>, seq<char>)> {
    if s == [] then Failure(IndexOutOfBounds) else Success((s[..CommandLength(s)], s[CommandLength(s)..]))
  }

  /** The command loop as written. */
  method ReadCommand(latex0: seq<char>) returns (r: Result<(seq<char>, seq<char>)>)
    ensures r == CommandSplit(latex0)
  {
    var latex := latex0;
    var command: seq<char> := [];
    while true
      invariant command + latex == latex0
      invariant latex0[..|command|] == command && latex0[|command|..] == latex
      invariant forall j :: 0 <= j < |command| ==> !StopsCommand(command[j])
      invariant command != [] ==> |latex| > 0 || |command| == |latex0|
      decreases |latex|
    {
      if |latex| == 0 {
        if command == [] {
          return Failure(IndexOutOfBounds);
        }
        assert CommandLength(latex0) == |command|;
        assert CommandSplit(latex0) == Success((command, latex));
        break;
      }
      if StopsCommand(latex[0]) {
        assert latex0[|command|] == latex[0];
        assert CommandLength(latex0) == |command|;
        assert CommandSplit(latex0) == Success((command, latex));
        break;
      }
      command := command + [latex[0]];
      latex := latex[1..];
      if |latex| == 0 {
        assert latex0 == command;
        assert latex0[..|command|] == command && latex0[|command|..] == latex;
        assert CommandLength(latex0) == |command|;
        assert CommandSplit(latex0) == Success((command, latex));
        break;
      }
    }
    return Success((command, latex));
  }

  /** `get_super_and_subscript` followed by the `todo!()` of the `\int` branch: every
      path is an error, an index error when the text is too short for the characters
      the source reads. */
  function IntegralError(latex: seq<char>): Error {
    if latex == [] then IndexOutOfBounds
    else if latex[0] == '_' then (if |latex| < 2 then IndexOutOfBounds else Unsupported)
    else if latex[0] == '^' then
      if |latex| < 2 then IndexOutOfBounds
      else if latex[1] == '{' && |latex| < 3 then IndexOutOfBounds
      else Unsupported
    else Unsupported
  }

  // ---------------------------------------------------------------------------
  // get_first_parameter

  /** The while loop of get_first_parameter on the text s after the opening bracket, with
      k characters pushed and the depth above zero: push s[k], then adjust the depth by
      the character after it. The result is the parameter's length. */
  function ScanParameter(s: seq<char>, k: nat, depth: int): (r: Result<nat>)
    requires k <= |s|
    ensures r.Success? ==> k < r.value < |s|
    decreases |s| - k
  {
    if k >= |s| then Failure(IndexOutOfBounds)
    else if k + 1 >= |s| then Failure(IndexOutOfBounds)
    else
      var d := depth + Delta(s[k + 1]);
      if d > 0 then ScanParameter(s, k + 1, d) else Success(k + 1)
  }

  /** get_first_parameter before its final latex_to_ir: the bracket kind of the first
      character, the parameter text, and the text after the closing bracket. */
  function SplitFirstParameter(latex: seq<char>): (r: Result<(BracketType, seq<char>, seq<char>)>)
    ensures r.Success? ==> |r.value.1| + |r.value.2| + 2 == |latex|
  {
    if latex == [] then Failure(IndexOutOfBounds)
    else
      var n :- ScanParameter(latex[1..], 0, 1);
      Success((GetOpeningBracketType(latex[0]), latex[1..n + 1], latex[n + 2..]))
  }

  /** get_first_parameter's text handling as written. */
  method GetFirstParameter(latex0: seq<char>) returns (r: Result<(BracketType, seq<char>, seq<char>)>)
    ensures r == SplitFirstParameter(latex0)
  {
    if |latex0| == 0 {
      return Failure(IndexOutOfBounds);
    }
    var bracketType := GetOpeningBracketType(latex0[0]);
    ghost var s := latex0[1..];
    var latex := latex0[1..];
    var parameter: seq<char> := [];
    var depth := 1;
    while depth > 0
      invariant |parameter| <= |s| && parameter == s[..|parameter|] && latex == s[|parameter|..]
      invariant depth > 0 ==> ScanParameter(s, |parameter|, depth) == ScanParameter(s, 0, 1)
      invariant depth <= 0 ==> ScanParameter(s, 0, 1) == Success(|parameter|) && |latex| > 0
      decreases |latex|
    {
      if |latex| == 0 {
        return Failure(IndexOutOfBounds);
      }
      ghost var k := |parameter|;
      parameter := parameter + [latex[0]];
      latex := latex[1..];
      if |latex| == 0 {
        return Failure(IndexOutOfBounds);
      }
      ghost var before := depth;
      ScanParameterStep(s, k, depth);
      assert latex[0] == s[k + 1];
      BracketTypeFacts(NoBracket, latex[0]);
      if IsOpeningBracket(latex[0]) {
        depth := depth + 1;
      } else if IsClosingBracket(latex[0]) {
        depth := depth - 1;
      }
      assert depth == before + Delta(s[k + 1]);
    }
    var n := |parameter|;
    assert parameter == latex0[1..n + 1] && latex[1..] == latex0[n + 2..];
    return Success((bracketType, parameter, latex[1..]));
  }

  /** One step of the parameter scan. */
  lemma {:induction false} ScanParameterStep(s: seq<char>, k: nat, depth: int)
    requires k + 1 < |s|
    ensures ScanParameter(s, k, depth) ==
      (if depth + Delta(s[k + 1]) > 0 then ScanParameter(s, k + 1, depth + Delta(s[k + 1])) else Success(k + 1))
  {
  }


  // ---------------------------------------------------------------------------
  // latex_to_ir

  /** The parts between the top-level powers. Each index is applied, as in the source,
      to the text left after the previous split; an index at or past its end is an
      index error. */
  function PowerParts(latex: seq<char>, powers: seq<nat>): (r: Result<seq<seq<char>>>)
    ensures r.Success? ==> forall q :: q in r.value ==> |q| <= |latex|
    ensures r.Success? && powers != [] ==> forall q :: q in r.value ==> |q| < |latex|
  {
    if powers == [] then Success([latex])
    else if powers[0] >= |latex| then Failure(IndexOutOfBounds)
    else
      var rest :- PowerParts(latex[powers[0] + 1..], powers[1..]);
      Success([latex[..powers[0]]] + rest)
  }

  /** The power loop of latex_to_ir as written: split the remaining text at each index
      in turn, keep the part before the caret and continue after it. */
  method SplitPowers(latex0: seq<char>, powers: seq<nat>) returns (r: Result<seq<seq<char>>>)
    ensures r == PowerParts(latex0, powers)
  {
    var latex := latex0;
    var parts: seq<seq<char>> := [];
    var i := 0;
    assert powers[i..] == powers;
    if PowerParts(latex, powers).Success? {
      assert parts + PowerParts(latex, powers).value == PowerParts(latex, powers).value;
    }
    while i < |powers|
      invariant 0 <= i <= |powers|
      invariant PowerParts(latex, powers[i..]).Failure? ==> PowerParts(latex0, powers) == PowerParts(latex, powers[i..])
      invariant PowerParts(latex, powers[i..]).Success? ==>
        PowerParts(latex0, powers) == Success(parts + PowerParts(latex, powers[i..]).value)
    {
      var power := powers[i];
      assert powers[i..][0] == power && powers[i..][1..] == powers[i + 1..];
      if power >= |latex| {
        return Failure(IndexOutOfBounds);
      }
      var lhs, rhs := latex[..power], latex[power + 1..];
      if PowerParts(rhs, powers[i + 1..]).Success? {
        assert parts + ([lhs] + PowerParts(rhs, powers[i + 1..]).value) == (parts + [lhs]) + PowerParts(rhs, powers[i + 1..]).value;
      }
      latex := rhs;
      parts := parts + [lhs];
      i := i + 1;
    }
    return Success(parts + [latex]);
  }

  /** `latex_to_ir`: split at the first top-level addition or subtraction, else at the
      first top-level multiplication or division, else at the top-level powers; text
      without top-level operators is a command or a leaf. */
  function LatexToIr(latex: seq<char>, implicitMultiplication: bool, surroundingBrackets: BracketType): Result<IR>
    decreases |latex|, 1
  {
    var ops :- GetOperatorsInTopLevel(latex, implicitMultiplication);
    if Any(ops) then
      if |ops.additionsAndSubtractions| > 0 then
        SplitAt(latex, ops.additionsAndSubtractions[0], implicitMultiplication, surroundingBrackets)
      else if |ops.multiplicationsAndDivisions| > 0 then
        SplitAt(latex, ops.multiplicationsAndDivisions[0], implicitMultiplication, surroundingBrackets)
      else
        var parts :- PowerParts(latex, ops.powers);
        var ps :- LatexToIrEach(parts, implicitMultiplication, |latex|);
        Success(IR("^", ps, surroundingBrackets))
    else if |latex| > 0 && latex[0] == '\\' then CommandToIr(latex[1..], implicitMultiplication, surroundingBrackets)
    else LeafToIr(latex, implicitMultiplication, surroundingBrackets)
  }

  /** The node for the operator at index k: its left and right text, in that order. */
  function SplitAt(latex: seq<char>, k: nat, implicitMultiplication: bool, surroundingBrackets: BracketType): Result<IR>
    requires k < |latex|
    decreases |latex|, 0
  {
    var lhs :- LatexToIr(latex[..k], implicitMultiplication, NoBracket);
    var rhs :- LatexToIr(latex[k + 1..], implicitMultiplication, NoBracket);
    Success(IR([latex[k]], [lhs, rhs], surroundingBrackets))
  }

  /** The parts of a power, each shorter than bound, parsed left to right. */
  function LatexToIrEach(parts: seq<seq<char>>, implicitMultiplication: bool, bound: nat): Result<seq<IR>>
    requires forall q :: q in parts ==> |q| < bound
    decreases bound, 0, |parts|
  {
    if parts == [] then Success([])
    else
      var first :- LatexToIr(parts[0], implicitMultiplication, NoBracket);
      var rest :- LatexToIrEach(parts[1..], implicitMultiplication, bound);
      Success([first] + rest)
  }

  /** The text after a leading backslash. */
  function CommandToIr(s: seq<char>, implicitMultiplication: bool, surroundingBrackets: BracketType): Result<IR>
    decreases |s|, 2
  {
    var split :- CommandSplit(s);
    var (command, rest) := split;
    if command == "int" then Failure(IntegralError(rest))
    else if command == "frac" then
      if rest == [] then Failure(IndexOutOfBounds)
      else if !IsOpeningBracket(rest[0]) then Failure(InvalidFraction)
      else
        var first :- SplitFirstParameter(rest);
        var p1 :- LatexToIr(first.1, implicitMultiplication, first.0);
        var second :- SplitFirstParameter(first.2);
        var p2 :- LatexToIr(second.1, implicitMultiplication, second.0);
        var fraction := IR("frac", [p1, p2], NoBracket);
        if second.2 == [] then Success(fraction)
        else
          var other :- LatexToIr(second.2, implicitMultiplication, NoBracket);
          Success(IR("*", [fraction, other], NoBracket))
    else if command == "sqrt" then
      var first :- SplitFirstParameter(rest);
      var p :- LatexToIr(first.1, implicitMultiplication, first.0);
      var sqrt := IR("sqrt", [p], NoBracket);
      if first.2 == [] then Success(sqrt)
      else
        var other :- LatexToIr(first.2, implicitMultiplication, NoBracket);
        Success(IR("sqrt", [sqrt, other], NoBracket))
    else if rest == [] then Success(IR(command, [], surroundingBrackets))
    else Failure(TrailingLatex)
  }

  predicate HasNumeric(s: seq<char>) {
    exists i :: 0 <= i < |s| && IsNumeric(s[i])
  }

  /** Text without top-level operators that does not start with a backslash: a leaf, or
      one of the todo!() branches. */
  function LeafToIr(latex: seq<char>, implicitMultiplication: bool, surroundingBrackets: BracketType): Result<IR> {
    if '\\' in latex then Failure(Unsupported)
    else if '{' in latex || '(' in latex || '[' in latex || LeftAngle in latex then Failure(Unsupported)
    else if HasNumeric(latex) then
      if !AllNumeric(latex) then Failure(Unsupported) else Success(IR(latex, [], surroundingBrackets))
    else if implicitMultiplication then Success(IR(latex, [], NoBracket))
    else Success(IR(latex, [], surroundingBrackets))
  }

  // ---------------------------------------------------------------------------
  // cleanup_latex and latex_to_equation

  const Cdot: seq<char> := "\\cdot"

  /** `str::replace("\\cdot", "*")`: left to right, without overlaps. */
  function ReplaceCdot(s: seq<char>): seq<char> {
    if |s| >= 5 && s[..5] == Cdot then "*" + ReplaceCdot(s[5..])
    else if s == [] then []
    else [s[0]] + ReplaceCdot(s[1..])
  }

  function RemoveSpaces(s: seq<char>): seq<char> {
    if s == [] then [] else (if s[0] == ' ' then [] else [s[0]]) + RemoveSpaces(s[1..])
  }

  /** `cleanup_latex`. */
  function CleanupLatex(latex: seq<char>): seq<char> {
    RemoveSpaces(ReplaceCdot(latex))
  }

  function LatexToEquationChecked(latex: seq<char>, implicitMultiplication: bool): Result<Equation> {
    var ir :- LatexToIr(CleanupLatex(latex), implicitMultiplication, NoBracket);
    IrToEquation(ir)
  }

  /** Rust's `!` on an i32: the bitwise complement. */
  function BitNot(x: int): int {
    -x - 1
  }

  /** `latex_to_equation` as written: `!depth == 0` holds only for a depth difference
      of -1, so that is the only imbalance it rejects. */
  function LatexToEquationAsWritten(latex: seq<char>, implicitMultiplication: bool): Result<Equation> {
    if BitNot(DepthDifference(latex)) == 0 then Failure(InvalidLatex)
    else LatexToEquationChecked(latex, implicitMultiplication)
  }

  /** `latex_to_equation` with the balance check it evidently intends: every unbalanced
      text is rejected. */
  function LatexToEquation(latex: seq<char>, implicitMultiplication: bool): Result<Equation> {
    if DepthDifference(latex) != 0 then Failure(InvalidLatex)
    else LatexToEquationChecked(latex, implicitMultiplication)
  }
}
