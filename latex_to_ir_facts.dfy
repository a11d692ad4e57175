/** How latex_to_ir of fishrambeta/src/parser.rs splits a text (the first top-level
    addition or subtraction first, then multiplication or division, then powers), what
    it makes of commands, fractions and leaves, and what latex_to_equation returns for
    small texts. */
module LatexToIrFacts {
  import opened Wrappers
  import opened Expressions
  import opened ParserBase
  import opened OperatorScan
  import opened Lowering
  import opened LatexParser
  import opened ParserFacts

  predicate IsOperatorChar(c: char) {
    IsAddSub(c) || IsMulDiv(c) || c == '^'
  }

  /** No operator character of the text stands at depth 0. */
  predicate NoTopLevelOperatorChars(latex: seq<char>, n: nat)
    requires n <= |latex|
  {
    forall j: nat :: j < n && IsOperatorChar(latex[j]) ==> ScanDepth(latex, j) != 0
  }

  lemma {:induction false} ScanFindsNothing(latex: seq<char>, n: nat, implicitMultiplication: bool)
    requires n <= |latex| && NoTopLevelOperatorChars(latex, n)
    ensures ScanPrefix(latex, n, implicitMultiplication) == Success(TopLevelOperators([], [], []))
  {
    if n > 0 {
      ScanFindsNothing(latex, n - 1, implicitMultiplication);
    }
  }

  /** Text without a depth-0 operator is a command or a leaf. */
  lemma {:induction false} NoOperatorsNoSplit(latex: seq<char>, implicitMultiplication: bool, br: BracketType)
    requires NoTopLevelOperatorChars(latex, |latex|)
    ensures LatexToIr(latex, implicitMultiplication, br) ==
      if |latex| > 0 && latex[0] == '\\' then CommandToIr(latex[1..], implicitMultiplication, br)
      else LeafToIr(latex, implicitMultiplication, br)
  {
    ScanFindsNothing(latex, |latex|, implicitMultiplication);
  }

  /** The first element of an increasing list holding k, all of whose elements are at
      least k, is k. */
  lemma {:induction false} FirstIs(xs: seq<nat>, k: nat)
    requires StrictlyIncreasing(xs) && k in xs && forall j: nat :: j in xs ==> j >= k
    ensures |xs| > 0 && xs[0] == k
  {
    var m :| 0 <= m < |xs| && xs[m] == k;
    assert xs[0] in xs;
    assert xs[0] <= xs[m];
  }

  /** Precedence: the text is split at its first top-level '+' or '-', whatever else it
      contains, into the parsed text before and the parsed text after. */
  lemma {:induction false} SplitsAtFirstAdditive(latex: seq<char>, implicitMultiplication: bool, br: BracketType, k: nat)
    requires GetOperatorsInTopLevel(latex, implicitMultiplication).Success?
    requires k < |latex| && IsAddSub(latex[k]) && ScanDepth(latex, k) == 0
    requires forall j: nat :: j < k && IsAddSub(latex[j]) ==> ScanDepth(latex, j) != 0
    ensures var lhs, rhs := LatexToIr(latex[..k], implicitMultiplication, NoBracket), LatexToIr(latex[k + 1..], implicitMultiplication, NoBracket);
      var r := LatexToIr(latex, implicitMultiplication, br);
      (r.Success? <==> lhs.Success? && rhs.Success?) &&
      (r.Success? ==> r.value == IR([latex[k]], [lhs.value, rhs.value], br)) &&
      (r.Failure? ==> r.error == (if lhs.Failure? then lhs.error else rhs.error))
  {
    ScanSpec(latex, implicitMultiplication);
    FirstIs(GetOperatorsInTopLevel(latex, implicitMultiplication).value.additionsAndSubtractions, k);
  }

  /** Without a top-level '+' or '-', the text is split at its first top-level '*' or
      '/'. */
  lemma {:induction false} SplitsAtFirstMultiplicative(latex: seq<char>, implicitMultiplication: bool, br: BracketType, k: nat)
    requires GetOperatorsInTopLevel(latex, implicitMultiplication).Success?
    requires forall j: nat :: j < |latex| && IsAddSub(latex[j]) ==> ScanDepth(latex, j) != 0
    requires k < |latex| && IsMulDiv(latex[k]) && ScanDepth(latex, k) == 0
    requires forall j: nat :: j < k && IsMulDiv(latex[j]) ==> ScanDepth(latex, j) != 0
    ensures var lhs, rhs := LatexToIr(latex[..k], implicitMultiplication, NoBracket), LatexToIr(latex[k + 1..], implicitMultiplication, NoBracket);
      var r := LatexToIr(latex, implicitMultiplication, br);
      (r.Success? <==> lhs.Success? && rhs.Success?) &&
      (r.Success? ==> r.value == IR([latex[k]], [lhs.value, rhs.value], br)) &&
      (r.Failure? ==> r.error == (if lhs.Failure? then lhs.error else rhs.error))
  {
    ScanSpec(latex, implicitMultiplication);
    var ops := GetOperatorsInTopLevel(latex, implicitMultiplication).value;
    HeadIsMember(ops.additionsAndSubtractions);
    FirstIs(ops.multiplicationsAndDivisions, k);
  }

  lemma {:induction false} HeadIsMember(xs: seq<nat>)
    ensures xs != [] ==> xs[0] in xs
  {
  }

  /** A strictly increasing list all of whose elements are k is [k]. */
  lemma {:induction false} OnlyElement(xs: seq<nat>, k: nat)
    requires StrictlyIncreasing(xs) && k in xs && forall j: nat :: j in xs ==> j == k
    ensures xs == [k]
  {
    FirstIs(xs, k);
    assert xs[|xs| - 1] in xs;
  }

  /** Without top-level '+', '-', '*' or '/', a text with one top-level power is split
      at it into base and exponent. */
  lemma {:induction false} SplitsAtOnlyPower(latex: seq<char>, implicitMultiplication: bool, br: BracketType, k: nat)
    requires GetOperatorsInTopLevel(latex, implicitMultiplication).Success?
    requires forall j: nat :: j < |latex| && (IsAddSub(latex[j]) || IsMulDiv(latex[j])) ==> ScanDepth(latex, j) != 0
    requires k < |latex| && TopLevelPower(latex, k, implicitMultiplication)
    requires forall j: nat :: j < |latex| && j != k ==> !TopLevelPower(latex, j, implicitMultiplication)
    ensures var base, exponent := LatexToIr(latex[..k], implicitMultiplication, NoBracket), LatexToIr(latex[k + 1..], implicitMultiplication, NoBracket);
      var r := LatexToIr(latex, implicitMultiplication, br);
      (r.Success? <==> base.Success? && exponent.Success?) &&
      (r.Success? ==> r.value == IR("^", [base.value, exponent.value], br))
  {
    ScanSpec(latex, implicitMultiplication);
    var ops := GetOperatorsInTopLevel(latex, implicitMultiplication).value;
    HeadIsMember(ops.additionsAndSubtractions);
    HeadIsMember(ops.multiplicationsAndDivisions);
    OnlyElement(ops.powers, k);
    PowerPartsAtOne(latex, k);
    TwoParts(latex[..k], latex[k + 1..], implicitMultiplication, |latex|);
  }

  lemma {:induction false} PowerPartsAtOne(latex: seq<char>, k: nat)
    requires k < |latex|
    ensures PowerParts(latex, [k]) == Success([latex[..k], latex[k + 1..]])
  {
    assert [k][1..] == [];
    assert PowerParts(latex[k + 1..], []) == Success([latex[k + 1..]]);
    assert [latex[..k]] + [latex[k + 1..]] == [latex[..k], latex[k + 1..]];
  }

  lemma {:induction false} TwoParts(x: seq<char>, y: seq<char>, implicitMultiplication: bool, bound: nat)
    requires |x| < bound && |y| < bound
    ensures var px, py := LatexToIr(x, implicitMultiplication, NoBracket), LatexToIr(y, implicitMultiplication, NoBracket);
      var r := LatexToIrEach([x, y], implicitMultiplication, bound);
      (r.Success? <==> px.Success? && py.Success?) &&
      (r.Success? ==> r.value == [px.value, py.value])
  {
    assert [x, y][1..] == [y];
    assert [y][1..] == [];
    assert LatexToIrEach([], implicitMultiplication, bound) == Success([]);
    var px, py := LatexToIr(x, implicitMultiplication, NoBracket), LatexToIr(y, implicitMultiplication, NoBracket);
    if py.Success? {
      assert [py.value] + [] == [py.value];
      assert LatexToIrEach([y], implicitMultiplication, bound) == Success([py.value]);
      if px.Success? {
        assert [px.value] + [py.value] == [px.value, py.value];
      }
    }
  }

  /** A caret at the very start is an index error: its top-level check reads before
      index 0. */
  lemma {:induction false} LeadingCaretFails(latex: seq<char>, implicitMultiplication: bool, br: BracketType)
    requires latex != [] && latex[0] == '^'
    ensures LatexToIr(latex, implicitMultiplication, br).Failure?
  {
    assert latex[0..0] == [];
    assert CaretIsPower(latex, 0);
    assert BrokenCaret(latex, 0, implicitMultiplication);
    ScanSpec(latex, implicitMultiplication);
  }

  // ---------------------------------------------------------------------------
  // Leaves and commands

  predicate NoOperatorChars(s: seq<char>) {
    forall i :: 0 <= i < |s| ==> !IsOperatorChar(s[i])
  }

  predicate HasOpener(s: seq<char>) {
    '{' in s || '(' in s || '[' in s || LeftAngle in s
  }

  /** A leaf: backslashes and opening brackets are unsupported, and so is a mix of
      digits and other characters; digits keep the surrounding brackets, other text
      keeps them only without implicit multiplication. */
  lemma {:induction false} LeafText(latex: seq<char>, implicitMultiplication: bool, br: BracketType)
    requires NoOperatorChars(latex) && (latex == [] || latex[0] != '\\')
    ensures '\\' in latex || HasOpener(latex) ==> LatexToIr(latex, implicitMultiplication, br) == Failure(Unsupported)
    ensures !('\\' in latex || HasOpener(latex)) && HasNumeric(latex) && !AllNumeric(latex) ==>
      LatexToIr(latex, implicitMultiplication, br) == Failure(Unsupported)
    ensures !('\\' in latex || HasOpener(latex)) && latex != [] && AllNumeric(latex) ==>
      LatexToIr(latex, implicitMultiplication, br) == Success(IR(latex, [], br))
    ensures !('\\' in latex || HasOpener(latex)) && !HasNumeric(latex) ==>
      LatexToIr(latex, implicitMultiplication, br) == Success(IR(latex, [], if implicitMultiplication then NoBracket else br))
  {
    NoOperatorsNoSplit(latex, implicitMultiplication, br);
  }

  /** A backslash command without operators: a bare name is a leaf of that name, text
      after it is an error, and `\int` is always an error. */
  lemma {:induction false} CommandText(command: seq<char>, rest: seq<char>, implicitMultiplication: bool, br: BracketType)
    requires NoOperatorChars(command + rest) && command + rest != []
    requires forall j :: 0 <= j < |command| ==> !StopsCommand(command[j])
    requires rest == [] || StopsCommand(rest[0])
    requires command != "frac" && command != "sqrt"
    ensures command == "int" ==>
      LatexToIr("\\" + command + rest, implicitMultiplication, br) == Failure(IntegralError(rest))
    ensures command != "int" ==>
      LatexToIr("\\" + command + rest, implicitMultiplication, br) ==
        if rest == [] then Success(IR(command, [], br)) else Failure(TrailingLatex)
  {
    var latex := "\\" + command + rest;
    var s := command + rest;
    assert latex == "\\" + s;
    Backslashed(s);
    NoOperatorsNoSplit(latex, implicitMultiplication, br);
    CommandSplitOf(command, rest);
    PlainCommand(s, command, rest, implicitMultiplication, br);
  }

  /** A backslash in front adds no operator character. */
  lemma {:induction false} Backslashed(s: seq<char>)
    requires NoOperatorChars(s)
    ensures NoOperatorChars("\\" + s) && ("\\" + s)[0] == '\\' && ("\\" + s)[1..] == s
  {
    var latex := "\\" + s;
    assert forall i :: 1 <= i < |latex| ==> latex[i] == s[i - 1];
  }

  /** The command loop stops at the first character that ends a command. */
  lemma {:induction false} CommandSplitOf(command: seq<char>, rest: seq<char>)
    requires command + rest != []
    requires forall j :: 0 <= j < |command| ==> !StopsCommand(command[j])
    requires rest == [] || StopsCommand(rest[0])
    ensures CommandSplit(command + rest) == Success((command, rest))
  {
    var s := command + rest;
    assert CommandLength(s) == |command| by {
      assert forall j :: 0 <= j < |command| ==> s[j] == command[j];
      if rest != [] {
        assert s[|command|] == rest[0];
      }
    }
    assert s[..|command|] == command && s[|command|..] == rest;
  }

  /** A command other than `\frac` and `\sqrt`: `\int` is refused, any other stands
      alone. */
  lemma {:induction false} PlainCommand(s: seq<char>, command: seq<char>, rest: seq<char>, implicitMultiplication: bool, br: BracketType)
    requires CommandSplit(s) == Success((command, rest))
    requires command != "frac" && command != "sqrt"
    ensures CommandToIr(s, implicitMultiplication, br) ==
      if command == "int" then Failure(IntegralError(rest))
      else if rest == [] then Success(IR(command, [], br)) else Failure(TrailingLatex)
  {
  }


  predicate NoBrackets(s: seq<char>) {
    forall i :: 0 <= i < |s| ==> !IsOpeningBracket(s[i]) && !IsClosingBracket(s[i])
  }

  /** A braced parameter without brackets inside is cut whole. */
  lemma {:induction false} BracedParameter(p: seq<char>, rest: seq<char>)
    requires p != [] && NoBrackets(p)
    ensures SplitFirstParameter("{" + p + "}" + rest) == Success((Curly, p, rest))
  {
    var latex := "{" + p + "}" + rest;
    assert latex == [latex[0]] + p + [latex[|p| + 1]] + rest;
    assert NoBrackets(p[1..]);
    DepthDifferenceBounds(p[1..]);
    DepthDifferenceAppend(p[1..], "}");
    assert "}"[..0] == [];
    forall j | 1 <= j < |p|
      ensures TailDepth(p, j) >= 0
    {
      assert NoBrackets(p[1..j + 1]);
      DepthDifferenceBounds(p[1..j + 1]);
    }
    SplitFirstParameterSpec(latex, Curly, p, rest);
  }

  /** The scan depth does not change across text without curly, round or square
      brackets. */
  lemma {:induction false} ScanDepthFlat(latex: seq<char>, m: nat, len: nat, i: nat)
    requires m + len <= |latex| && i <= len
    requires forall t :: m <= t < m + len ==> !ScanOpens(latex[t]) && !ScanCloses(latex[t])
    ensures ScanDepth(latex, m + i) == ScanDepth(latex, m)
  {
    if i > 0 {
      ScanDepthFlat(latex, m, len, i - 1);
    }
  }

  function Fraction(a: seq<char>, b: seq<char>): seq<char> {
    "\\frac{" + a + "}{" + b + "}"
  }

  /** After its backslash a fraction is the command `frac` and its two parameters. */
  lemma {:induction false} FractionAfterBackslash(a: seq<char>, b: seq<char>)
    ensures Fraction(a, b)[1..] == "frac" + ("{" + a + "}{" + b + "}")
  {
    var x := "frac" + ("{" + a + "}{" + b + "}");
    assert Fraction(a, b) == "\\" + x;
  }

  /** No operator of a fraction stands at depth 0. */
  lemma {:induction false} FractionScan(a: seq<char>, b: seq<char>)
    requires NoBrackets(a) && NoBrackets(b)
    ensures NoTopLevelOperatorChars(Fraction(a, b), |Fraction(a, b)|)
  {
    var l := Fraction(a, b);
    var m1 := 6;
    var m2 := 8 + |a|;
    assert forall t :: m1 <= t < m1 + |a| ==> l[t] == a[t - m1];
    assert forall t :: m2 <= t < m2 + |b| ==> l[t] == b[t - m2];
    assert ScanDepth(l, 5) == 0 by {
      assert ScanDepth(l, 5) == ScanDepth(l, 4) == ScanDepth(l, 3) == ScanDepth(l, 2) == ScanDepth(l, 1) == 0;
    }
    assert ScanDepth(l, m1) == 1;
    forall j: nat | j < |l| && IsOperatorChar(l[j])
      ensures ScanDepth(l, j) != 0
    {
      if m1 <= j < m1 + |a| {
        ScanDepthFlat(l, m1, |a|, j - m1);
      } else if m2 <= j < m2 + |b| {
        ScanDepthFlat(l, m1, |a|, |a|);
        assert ScanDepth(l, m2) == 1;
        ScanDepthFlat(l, m2, |b|, j - m2);
      }
    }
  }

  /** `\frac{a}{b}` with bracket-free a and b is a `frac` node of the two parameters,
      each parsed in curly brackets; the surrounding brackets are dropped. */
  lemma {:induction false} FractionText(a: seq<char>, b: seq<char>, implicitMultiplication: bool, br: BracketType)
    requires a != [] && b != [] && NoBrackets(a) && NoBrackets(b)
    ensures var pa, pb := LatexToIr(a, implicitMultiplication, Curly), LatexToIr(b, implicitMultiplication, Curly);
      var r := LatexToIr(Fraction(a, b), implicitMultiplication, br);
      (r.Success? <==> pa.Success? && pb.Success?) &&
      (r.Success? ==> r.value == IR("frac", [pa.value, pb.value], NoBracket))
  {
    var l := Fraction(a, b);
    assert LatexToIr(l, implicitMultiplication, br) == CommandToIr(l[1..], implicitMultiplication, br) by {
      FractionScan(a, b);
      NoOperatorsNoSplit(l, implicitMultiplication, br);
      assert l[0] == '\\';
    }
    FractionAfterBackslash(a, b);
    FractionCommand(a, b, implicitMultiplication, br);
  }

  lemma {:induction false} FractionCommand(a: seq<char>, b: seq<char>, implicitMultiplication: bool, br: BracketType)
    requires a != [] && b != [] && NoBrackets(a) && NoBrackets(b)
    ensures var pa, pb := LatexToIr(a, implicitMultiplication, Curly), LatexToIr(b, implicitMultiplication, Curly);
      var r := CommandToIr("frac" + ("{" + a + "}{" + b + "}"), implicitMultiplication, br);
      (r.Success? <==> pa.Success? && pb.Success?) &&
      (r.Success? ==> r.value == IR("frac", [pa.value, pb.value], NoBracket))
  {
    var rest := "{" + a + "}{" + b + "}";
    FractionParameters(a, b);
    assert rest[0] == '{';
    CommandSplitOf("frac", rest);
  }

  /** The two braced parameters of a fraction are cut one after the other. */
  lemma {:induction false} FractionParameters(a: seq<char>, b: seq<char>)
    requires a != [] && b != [] && NoBrackets(a) && NoBrackets(b)
    ensures SplitFirstParameter("{" + a + "}{" + b + "}") == Success((Curly, a, "{" + b + "}"))
    ensures SplitFirstParameter("{" + b + "}") == Success((Curly, b, []))
  {
    BracedParameter(a, "{" + b + "}");
    assert "{" + a + "}{" + b + "}" == "{" + a + "}" + ("{" + b + "}");
    BracedParameter(b, []);
    assert "{" + b + "}" == "{" + b + "}" + [];
  }

  // ---------------------------------------------------------------------------
  // latex_to_equation

  /** The balance check as written rejects exactly the texts with one closing bracket
      too many (when the conversion itself does not fail for the same reason); every
      other imbalance is passed on. */
  lemma {:induction false} AsWrittenBalanceCheck(latex: seq<char>, implicitMultiplication: bool)
    ensures DepthDifference(latex) == -1 ==> LatexToEquationAsWritten(latex, implicitMultiplication) == Failure(InvalidLatex)
    ensures DepthDifference(latex) != -1 ==>
      LatexToEquationAsWritten(latex, implicitMultiplication) == LatexToEquationChecked(latex, implicitMultiplication)
  {
  }

  /** With the intended check every unbalanced text is rejected, so every text that
      converts is balanced, before and after cleanup. */
  lemma {:induction false} BalanceCheck(latex: seq<char>, implicitMultiplication: bool)
    ensures DepthDifference(latex) != 0 ==> LatexToEquation(latex, implicitMultiplication) == Failure(InvalidLatex)
    ensures DepthDifference(latex) == 0 ==>
      LatexToEquation(latex, implicitMultiplication) == LatexToEquationChecked(latex, implicitMultiplication)
    ensures LatexToEquation(latex, implicitMultiplication).Success? ==>
      DepthDifference(latex) == 0 && DepthDifference(CleanupLatex(latex)) == 0
  {
    CleanupSpec(latex);
  }

  /** Text of letters and closing brackets that closes at least two brackets too many:
      the check as written lets it through and it becomes a single letter; the intended
      check rejects it. */
  lemma {:induction false} UnbalancedLeafAccepted(l: seq<char>)
    requires l != [] && NoOperatorChars(l) && l[0] != '\\'
    requires '\\' !in l && ' ' !in l && !HasOpener(l) && !HasNumeric(l)
    requires DepthDifference(l) < -1
    ensures LatexToEquationAsWritten(l, false) == Success(Var(Letter(l)))
    ensures LatexToEquation(l, false) == Failure(InvalidLatex)
  {
    CleanupSpec(l);
    LeafText(l, false, NoBracket);
    assert !AllNumeric(l) by { assert !IsNumeric(l[0]); }
    LeafLowering(l, NoBracket);
  }

  /** `a))` closes two brackets that were never opened. */
  lemma {:induction false} UnbalancedTextAccepted()
    ensures LatexToEquationAsWritten("a))", false) == Success(Var(Letter("a))")))
    ensures LatexToEquation("a))", false) == Failure(InvalidLatex)
  {
    var l := "a))";
    assert DepthDifference(l) == -2 by {
      assert Delta('a') == 0 && Delta(')') == -1;
      assert l[..2][..1][..0] == [];
      assert DepthDifference(l[..2][..1]) == 0;
      assert DepthDifference(l[..2]) == -1;
    }
    assert NoOperatorChars(l);
    assert !HasNumeric(l);
    UnbalancedLeafAccepted(l);
  }

  /** Each leaf of these small examples is its own IR node. */
  lemma {:induction false} Leaf(s: seq<char>, implicitMultiplication: bool)
    requires |s| == 1 && !IsOperatorChar(s[0]) && s[0] != '\\' && !IsOpeningBracket(s[0]) && !IsClosingBracket(s[0])
    ensures LatexToIr(s, implicitMultiplication, NoBracket) == Success(IR(s, [], NoBracket))
    ensures IsNumeric(s[0]) ==> IrToEquation(IR(s, [], NoBracket)) == Success(Var(Integer(DigitValue(s[0]))))
    ensures !IsNumeric(s[0]) ==> IrToEquation(IR(s, [], NoBracket)) == Success(Var(Letter(s)))
  {
    assert NoOperatorChars(s);
    assert '\\' !in s && !HasOpener(s);
    LeafText(s, implicitMultiplication, NoBracket);
    assert !IsOperatorName(s);
    LeafLowering(s, NoBracket);
    if IsNumeric(s[0]) {
      assert HasNumeric(s) && AllNumeric(s);
      assert s[..0] == [];
      assert DigitsValue(s) == DigitValue(s[0]) by {
        assert DigitsValue(s[..0]) == 0;
      }
    } else {
      assert !HasNumeric(s);
    }
  }

  /** `1+2` is the sum of two integers. */
  lemma {:induction false} SumExample()
    ensures LatexToEquation("1+2", false) == Success(Addition([Var(Integer(1)), Var(Integer(2))]))
  {
    BinaryExample("1+2", false);
  }

  /** `a-b` is the sum of a and the negation of b. */
  lemma {:induction false} DifferenceExample()
    ensures LatexToEquation("a-b", false) == Success(Addition([Var(Letter("a")), Negative(Var(Letter("b")))]))
  {
    BinaryExample("a-b", false);
  }

  /** `x^2` is a power of a letter. */
  lemma {:induction false} PowerExample()
    ensures LatexToEquation("x^2", false) == Success(Power(Var(Letter("x")), Var(Integer(2))))
  {
    PowerOfLeaves("x^2", false);
  }

  /** A three-character text `l^r` whose sides are single characters. */
  lemma {:induction false} PowerOfLeaves(p: seq<char>, implicitMultiplication: bool)
    requires |p| == 3 && p[1] == '^'
    requires forall i :: 0 <= i < 3 && i != 1 ==>
      !IsOperatorChar(p[i]) && p[i] != '\\' && p[i] != ' ' && p[i] != '_' && !IsOpeningBracket(p[i]) && !IsClosingBracket(p[i])
    requires !IsNumeric(p[0])
    ensures var er := if IsNumeric(p[2]) then Var(Integer(DigitValue(p[2]))) else Var(Letter([p[2]]));
      LatexToEquation(p, implicitMultiplication) == Success(Power(Var(Letter([p[0]])), er))
  {
    var ir := IR("^", [IR([p[0]], [], NoBracket), IR([p[2]], [], NoBracket)], NoBracket);
    assert LatexToIr(p, implicitMultiplication, NoBracket) == Success(ir) by {
      assert ScanDepth(p, 1) == 0 && ScanDepth(p, 0) == 0;
      CaretOutsideCommands(p, 1);
      assert p[..1] == [p[0]];
      assert TopLevelPower(p, 1, implicitMultiplication);
      assert forall j: nat :: j < 3 && j != 1 ==> !TopLevelPower(p, j, implicitMultiplication);
      ScanSpec(p, implicitMultiplication);
      SplitsAtOnlyPower(p, implicitMultiplication, NoBracket, 1);
      assert p[2..] == [p[2]];
      Leaf([p[0]], implicitMultiplication);
      Leaf([p[2]], implicitMultiplication);
    }
    assert LatexToEquation(p, implicitMultiplication) == IrToEquation(ir) by {
      assert NoBrackets(p) by {
        assert !IsOpeningBracket(p[1]) && !IsClosingBracket(p[1]);
      }
      DepthDifferenceBounds(p);
      assert '\\' !in p && ' ' !in p;
      CleanupSpec(p);
    }
    Leaf([p[0]], implicitMultiplication);
    Leaf([p[2]], implicitMultiplication);
    BinaryLowering('^', IR([p[0]], [], NoBracket), IR([p[2]], [], NoBracket), NoBracket);
  }

  /** A three-character text `l op r` with an additive operator in the middle. */
  lemma {:induction false} BinaryExample(p: seq<char>, implicitMultiplication: bool)
    requires |p| == 3 && IsAddSub(p[1])
    requires forall i :: 0 <= i < 3 && i != 1 ==>
      !IsOperatorChar(p[i]) && p[i] != '\\' && p[i] != ' ' && !IsOpeningBracket(p[i]) && !IsClosingBracket(p[i])
    ensures var l, r := [p[0]], [p[2]];
      var el := if IsNumeric(p[0]) then Var(Integer(DigitValue(p[0]))) else Var(Letter(l));
      var er := if IsNumeric(p[2]) then Var(Integer(DigitValue(p[2]))) else Var(Letter(r));
      LatexToEquation(p, implicitMultiplication) ==
        Success(if p[1] == '+' then Addition([el, er]) else Addition([el, Negative(er)]))
  {
    var ir := IR([p[1]], [IR([p[0]], [], NoBracket), IR([p[2]], [], NoBracket)], NoBracket);
    assert LatexToIr(p, implicitMultiplication, NoBracket) == Success(ir) by {
      assert ScanDepth(p, 1) == 0 && ScanDepth(p, 0) == 0;
      assert forall j: nat :: j < 3 ==> !BrokenCaret(p, j, implicitMultiplication);
      ScanSpec(p, implicitMultiplication);
      SplitsAtFirstAdditive(p, implicitMultiplication, NoBracket, 1);
      assert p[..1] == [p[0]] && p[2..] == [p[2]];
      Leaf([p[0]], implicitMultiplication);
      Leaf([p[2]], implicitMultiplication);
    }
    assert LatexToEquation(p, implicitMultiplication) == IrToEquation(ir) by {
      assert NoBrackets(p) by {
        assert !IsOpeningBracket(p[1]) && !IsClosingBracket(p[1]);
      }
      DepthDifferenceBounds(p);
      assert '\\' !in p && ' ' !in p;
      CleanupSpec(p);
    }
    Leaf([p[0]], implicitMultiplication);
    Leaf([p[2]], implicitMultiplication);
    BinaryLowering(p[1], IR([p[0]], [], NoBracket), IR([p[2]], [], NoBracket), NoBracket);
  }

  /** A three-character text `l op r` with a multiplicative operator in the middle. */
  lemma {:induction false} ProductExample(p: seq<char>, implicitMultiplication: bool)
    requires |p| == 3 && IsMulDiv(p[1])
    requires forall i :: 0 <= i < 3 && i != 1 ==>
      !IsOperatorChar(p[i]) && p[i] != '\\' && p[i] != ' ' && !IsOpeningBracket(p[i]) && !IsClosingBracket(p[i])
    ensures var l, r := [p[0]], [p[2]];
      var el := if IsNumeric(p[0]) then Var(Integer(DigitValue(p[0]))) else Var(Letter(l));
      var er := if IsNumeric(p[2]) then Var(Integer(DigitValue(p[2]))) else Var(Letter(r));
      LatexToEquation(p, implicitMultiplication) ==
        Success(if p[1] == '*' then Multiplication([el, er]) else Division(el, er))
  {
    var ir := IR([p[1]], [IR([p[0]], [], NoBracket), IR([p[2]], [], NoBracket)], NoBracket);
    assert LatexToIr(p, implicitMultiplication, NoBracket) == Success(ir) by {
      assert ScanDepth(p, 1) == 0 && ScanDepth(p, 0) == 0;
      assert forall j: nat :: j < 3 ==> !BrokenCaret(p, j, implicitMultiplication);
      ScanSpec(p, implicitMultiplication);
      SplitsAtFirstMultiplicative(p, implicitMultiplication, NoBracket, 1);
      assert p[..1] == [p[0]] && p[2..] == [p[2]];
      Leaf([p[0]], implicitMultiplication);
      Leaf([p[2]], implicitMultiplication);
    }
    assert LatexToEquation(p, implicitMultiplication) == IrToEquation(ir) by {
      assert NoBrackets(p) by {
        assert !IsOpeningBracket(p[1]) && !IsClosingBracket(p[1]);
      }
      DepthDifferenceBounds(p);
      assert '\\' !in p && ' ' !in p;
      CleanupSpec(p);
    }
    Leaf([p[0]], implicitMultiplication);
    Leaf([p[2]], implicitMultiplication);
    BinaryLowering(p[1], IR([p[0]], [], NoBracket), IR([p[2]], [], NoBracket), NoBracket);
  }

  /** `a\cdot b` (with a space before b, as typed) is cleaned up to `a*b`. */
  lemma {:induction false} CdotProduct(a: char, b: char, implicitMultiplication: bool)
    requires !IsOperatorChar(a) && a != '\\' && a != ' ' && !IsOpeningBracket(a) && !IsClosingBracket(a)
    requires !IsOperatorChar(b) && b != '\\' && b != ' ' && !IsOpeningBracket(b) && !IsClosingBracket(b)
    ensures var ea := if IsNumeric(a) then Var(Integer(DigitValue(a))) else Var(Letter([a]));
      var eb := if IsNumeric(b) then Var(Integer(DigitValue(b))) else Var(Letter([b]));
      LatexToEquation([a] + Cdot + [' ', b], implicitMultiplication) == Success(Multiplication([ea, eb]))
  {
    var l := [a] + Cdot + [' ', b];
    var p := [a, '*', b];
    assert CleanupLatex(l) == p by {
      ReplaceCdotAfterPlain([a], [' ', b]);
      ReplaceCdotSpec([' ', b]);
      RemoveSpacesAppend([a, '*'], [' ', b]);
      RemoveSpacesSpec([a, '*']);
      assert [' ', b][1..] == [b];
      RemoveSpacesSpec([b]);
      assert [a] + "*" == [a, '*'];
    }
    assert DepthDifference(l) == 0 by {
      DepthDifferenceBounds(l);
    }
    assert p[1] == '*';
    assert NoBrackets(p) by {
      assert !IsOpeningBracket(p[1]) && !IsClosingBracket(p[1]);
    }
    assert LatexToEquation(l, implicitMultiplication) == LatexToEquation(p, implicitMultiplication) by {
      assert '\\' !in p && ' ' !in p;
      CleanupSpec(p);
      DepthDifferenceBounds(p);
    }
    ProductExample(p, implicitMultiplication);
  }

  /** `2\cdot x` is the product of 2 and x. */
  lemma {:induction false} CdotExample()
    ensures LatexToEquation("2\\cdot x", false) == Success(Multiplication([Var(Integer(2)), Var(Letter("x"))]))
  {
    CdotProduct('2', 'x', false);
    assert ['2'] + Cdot + [' ', 'x'] == "2\\cdot x";
  }

  /** An increasing list whose elements are exactly a and b, a < b, is [a, b]. */
  lemma {:induction false} TwoElements(xs: seq<nat>, a: nat, b: nat)
    requires StrictlyIncreasing(xs) && a < b
    requires forall j: nat :: j in xs <==> j == a || j == b
    ensures xs == [a, b]
  {
    FirstIs(xs, a);
    assert b in xs;
    var m :| 0 <= m < |xs| && xs[m] == b;
    assert xs[|xs| - 1] in xs;
    assert xs[1] in xs;
  }

  /** With implicit multiplication, `a^bc^d` (single letters) has top-level powers at 1
      and 4. Each index is applied to the text left after the previous cut, so the second
      one falls past the end of `bc^d` and the conversion is an index error. */
  lemma {:induction false} ChainedPowersIndexError(a: char, b: char, c: char, d: char)
    requires IsAlphabetic(a) && IsAlphabetic(b) && IsAlphabetic(c) && IsAlphabetic(d)
    ensures LatexToIr([a, '^', b, c, '^', d], true, NoBracket) == Failure(IndexOutOfBounds)
  {
    var l := [a, '^', b, c, '^', d];
    assert GetOperatorsInTopLevel(l, true) == Success(TopLevelOperators([1, 4], [], [])) by {
      ChainedPowersScan(a, b, c, d);
    }
    assert PowerParts(l, [1, 4]) == Failure(IndexOutOfBounds) by {
      assert [1, 4][1..] == [4];
      assert |l[2..]| == 4;
      assert PowerParts(l[2..], [4]) == Failure(IndexOutOfBounds);
    }
    assert Any(TopLevelOperators([1, 4], [], []));
  }

  lemma {:induction false} ChainedPowersCarets(a: char, b: char, c: char, d: char)
    requires IsAlphabetic(a) && IsAlphabetic(b) && IsAlphabetic(c) && IsAlphabetic(d)
    ensures var l := [a, '^', b, c, '^', d];
      (forall j: nat :: j <= |l| ==> ScanDepth(l, j) == 0) &&
      TopLevelPower(l, 1, true) && TopLevelPower(l, 4, true)
  {
    var l := [a, '^', b, c, '^', d];
    assert forall t :: 0 <= t < |l| ==> !ScanOpens(l[t]) && !ScanCloses(l[t]);
    forall j: nat | j <= |l|
      ensures ScanDepth(l, j) == 0
    {
      ScanDepthFlat(l, 0, |l|, j);
    }
    ChainedPowersFirstCaret(a, b, c, d);
    ChainedPowersSecondCaret(a, b, c, d);
  }

  lemma {:induction false} ChainedPowersFirstCaret(a: char, b: char, c: char, d: char)
    requires IsAlphabetic(a) && IsAlphabetic(b) && IsAlphabetic(c) && IsAlphabetic(d)
    requires ScanDepth([a, '^', b, c, '^', d], 1) == 0
    ensures TopLevelPower([a, '^', b, c, '^', d], 1, true)
  {
    var l := [a, '^', b, c, '^', d];
    assert l[..1] == [a];
    CaretOutsideCommands(l, 1);
  }

  lemma {:induction false} ChainedPowersSecondCaret(a: char, b: char, c: char, d: char)
    requires IsAlphabetic(a) && IsAlphabetic(b) && IsAlphabetic(c) && IsAlphabetic(d)
    requires ScanDepth([a, '^', b, c, '^', d], 4) == 0
    ensures TopLevelPower([a, '^', b, c, '^', d], 4, true)
  {
    var l := [a, '^', b, c, '^', d];
    assert l[..4] == [a, '^', b, c];
    CaretOutsideCommands(l, 4);
    PowerIsTopLevelSpec(l, 4, true);
    assert l[2..4] == [b, c];
    SingleExpressionSpec(l[2..4], true);
  }


  lemma {:induction false} ChainedPowersScan(a: char, b: char, c: char, d: char)
    requires IsAlphabetic(a) && IsAlphabetic(b) && IsAlphabetic(c) && IsAlphabetic(d)
    ensures GetOperatorsInTopLevel([a, '^', b, c, '^', d], true) == Success(TopLevelOperators([1, 4], [], []))
  {
    var l := [a, '^', b, c, '^', d];
    ChainedPowersCarets(a, b, c, d);
    forall j: nat | j < |l|
      ensures !IsAddSub(l[j]) && !IsMulDiv(l[j]) && (l[j] == '^' <==> j == 1 || j == 4)
    {
      if j == 0 {} else if j == 1 {} else if j == 2 {} else if j == 3 {} else if j == 4 {} else {}
    }
    assert forall j: nat :: j < |l| ==> !BrokenCaret(l, j, true);
    ScanSpec(l, true);
    var ops := GetOperatorsInTopLevel(l, true).value;
    HeadIsMember(ops.additionsAndSubtractions);
    HeadIsMember(ops.multiplicationsAndDivisions);
    assert forall j: nat :: j in ops.powers <==> j == 1 || j == 4;
    TwoElements(ops.powers, 1, 4);
  }

  /** `a^bc^d` itself. */
  lemma {:induction false} ChainedPowersExample()
    ensures LatexToIr("a^bc^d", true, NoBracket) == Failure(IndexOutOfBounds)
  {
    ChainedPowersIndexError('a', 'b', 'c', 'd');
    assert ['a', '^', 'b', 'c', '^', 'd'] == "a^bc^d";
  }
}
