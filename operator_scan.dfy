/** The scan of fishrambeta/src/parser.rs that finds the operators of a LaTeX text's top
    level (`get_operators_in_top_level_from_latex`), with the two checks that decide
    whether a caret is a power (`check_if_caret_is_power`,
    `check_if_power_is_top_level`, `check_if_part_is_single_expression`). */
module OperatorScan {
  import opened Wrappers
  import opened ParserBase

  /** `TopLevelOperators`: the indices of each class of top-level operator. */
  datatype TopLevelOperators = TopLevelOperators(
    powers: seq<nat>,
    multiplicationsAndDivisions: seq<nat>,
    additionsAndSubtractions: seq<nat>)

  predicate Any(ops: TopLevelOperators) {
    |ops.powers| > 0 || |ops.multiplicationsAndDivisions| > 0 || |ops.additionsAndSubtractions| > 0
  }

  /** The scan tracks only curly, square and round brackets (not angle brackets). */
  predicate ScanOpens(c: char) { c == '{' || c == '(' || c == '[' }
  predicate ScanCloses(c: char) { c == '}' || c == ')' || c == ']' }

  /** The scan's depth just before index i. */
  function ScanDepth(latex: seq<char>, i: nat): int
    requires i <= |latex|
  {
    if i == 0 then 0
    else ScanDepth(latex, i - 1) + (if ScanOpens(latex[i - 1]) then 1 else if ScanCloses(latex[i - 1]) then -1 else 0)
  }

  predicate IsAddSub(c: char) { c == '+' || c == '-' }
  predicate IsMulDiv(c: char) { c == '*' || c == '/' }

  // ---------------------------------------------------------------------------
  // check_if_caret_is_power

  /** The first index of c in s, or |s|. */
  function IndexOf(s: seq<char>, c: char): (r: nat)
    ensures r <= |s|
    ensures r < |s| ==> s[r] == c
    ensures forall j :: 0 <= j < r ==> s[j] != c
  {
    if s == [] then 0 else if s[0] == c then 0 else 1 + IndexOf(s[1..], c)
  }

  /** Where the text the caret belongs to starts: just after the last backslash before
      index i, or at 0. */
  function CommandStart(latex: seq<char>, i: nat): (r: nat)
    requires i <= |latex|
    ensures r <= i
  {
    if i == 0 then 0 else if latex[i - 1] == '\\' then i else CommandStart(latex, i - 1)
  }

  /** `check_if_caret_is_power`: a caret is a superscript (not a power) exactly when the
      text since the last command start, cut at its first '_', is `int` and no '{' in
      it stands after a non-'_' character. The source's second test, for a '{' before
      the first '{', can never hold and is left out. */
  function CaretIsPower(latex: seq<char>, caret: nat): bool
    requires caret <= |latex|
  {
    var chars := latex[CommandStart(latex, caret)..caret];
    var position := IndexOf(chars, '{');
    if position < |chars| && position > 0 && chars[position - 1] != '_' then true
    else chars[..IndexOf(chars, '_')] != "int"
  }

  /** The backward for loop of check_if_caret_is_power: the characters since the last
      backslash. */
  method CharsUntilCommandStart(latex: seq<char>, caret: nat) returns (chars: seq<char>)
    requires caret <= |latex|
    ensures chars == latex[CommandStart(latex, caret)..caret]
  {
    chars := [];
    var i: nat := caret;
    while i > 0
      invariant i <= caret
      invariant chars == latex[i..caret]
      invariant CommandStart(latex, caret) == CommandStart(latex, i)
    {
      if latex[i - 1] != '\\' {
        chars := [latex[i - 1]] + chars;
      } else {
        return;
      }
      i := i - 1;
    }
  }

  /** The command start is just after the last backslash. */
  lemma {:induction false} CommandStartAfter(latex: seq<char>, start: nat, i: nat)
    requires 0 < start <= i <= |latex| && latex[start - 1] == '\\'
    requires forall k :: start <= k < i ==> latex[k] != '\\'
    ensures CommandStart(latex, i) == start
    decreases i
  {
    if i > start {
      CommandStartAfter(latex, start, i - 1);
    }
  }

  /** The source's first case: the caret of `\int^10{a}{b}` is a superscript. */
  lemma {:induction false} SuperscriptExample()
    ensures !CaretIsPower("\\int^10{a}{b}", 4)
  {
    assert "\\int^10{a}{b}" == [] + "\\int" + "^10{a}{b}";
    CaretAfterIntegral([], "^10{a}{b}");
  }

  /** The source's second case: the caret of `\frac{a}{b}^10` is a power. */
  lemma {:induction false} PowerAfterFraction(a: char, b: char)
    requires a != '\\' && b != '\\'
    ensures CaretIsPower("\\frac{" + [a] + "}{" + [b] + "}^10", 11)
  {
    var s2 := "\\frac{" + [a] + "}{" + [b] + "}^10";
    assert s2[..11] == ['\\', 'f', 'r', 'a', 'c', '{', a, '}', '{', b, '}'];
    CommandStartAfter(s2, 1, 11);
    var chars := s2[1..11];
    assert chars[0] == 'f' && chars[1] == 'r' && chars[2] == 'a' && chars[3] == 'c' && chars[4] == '{';
    assert IndexOf(chars, '{') == 4;
  }

  lemma {:induction false} PowerExample()
    ensures CaretIsPower("\\frac{a}{b}^10", 11)
  {
    assert "\\frac{a}{b}^10" == "\\frac{" + ['a'] + "}{" + ['b'] + "}^10";
    PowerAfterFraction('a', 'b');
  }

  /** A caret right after `\int` is a superscript, whatever stands before and after. */
  lemma {:induction false} CaretAfterIntegral(pre: seq<char>, rest: seq<char>)
    ensures !CaretIsPower(pre + "\\int" + rest, |pre| + 4)
  {
    var s1 := pre + "\\int" + rest;
    assert s1[|pre|..|pre| + 4] == "\\int";
    CommandStartAfter(s1, |pre| + 1, |pre| + 4);
    assert s1[|pre| + 1..|pre| + 4] == "int";
  }

  /** So is a caret after `\int_` and a subscript without a backslash or a '{'. */
  lemma {:induction false} CaretAfterIntegralSubscript(pre: seq<char>, sub: seq<char>, rest: seq<char>)
    requires '\\' !in sub && '{' !in sub
    ensures !CaretIsPower(pre + "\\int_" + sub + rest, |pre| + 5 + |sub|)
  {
    var s2 := pre + "\\int_" + sub + rest;
    var c := |pre| + 5 + |sub|;
    assert s2[|pre|..c] == "\\int_" + sub;
    CommandStartAfter(s2, |pre| + 1, c);
    var chars := s2[|pre| + 1..c];
    assert chars == "int_" + sub;
    assert chars[0] == 'i' && chars[1] == 'n' && chars[2] == 't' && chars[3] == '_';
    assert IndexOf(chars, '_') == 3;
    assert forall j :: 0 <= j < |chars| ==> chars[j] != '{';
  }



  lemma {:induction false} CommandStartWithoutBackslash(latex: seq<char>, i: nat)
    requires i <= |latex| && '\\' !in latex[..i]
    ensures CommandStart(latex, i) == 0
  {
    if i > 0 {
      assert latex[i - 1] == latex[..i][i - 1];
      assert latex[..i - 1] == latex[..i][..i - 1];
      CommandStartWithoutBackslash(latex, i - 1);
    }
  }

  lemma {:induction false} CaretOutsideCommands(latex: seq<char>, caret: nat)
    requires caret <= |latex|
    requires '\\' !in latex[..caret] && '_' !in latex[..caret] && latex[..caret] != "int"
    ensures CaretIsPower(latex, caret)
  {
    CommandStartWithoutBackslash(latex, caret);
    var chars := latex[..caret];
    assert latex[0..caret] == chars;
    assert IndexOf(chars, '_') == |chars|;
    assert chars[..|chars|] == chars;
  }

  // ---------------------------------------------------------------------------
  // check_if_power_is_top_level and check_if_part_is_single_expression

  /** `check_if_part_is_single_expression`. The source indexes `part[0]` once the part is
      balanced, so an empty part is an index error. */
  function SingleExpression(part: seq<char>, implicitMultiplication: bool): Result<bool> {
    if DepthDifference(part) != 0 then Success(false)
    else if |part| == 0 then Failure(IndexOutOfBounds)
    else if IsOpeningBracket(part[0]) && IsClosingBracket(part[0]) then Success(true)
    else if !implicitMultiplication then Success(false)
    else Success(forall i :: 0 <= i < |part| ==> IsAlphabetic(part[i]))
  }

  /** The part between two carets is one expression exactly when implicit
      multiplication is on and the part is a non-empty run of letters; the check fails
      exactly on an empty part. */
  lemma {:induction false} SingleExpressionSpec(part: seq<char>, implicitMultiplication: bool)
    ensures SingleExpression(part, implicitMultiplication) == Success(true) <==>
      implicitMultiplication && |part| > 0 && forall i :: 0 <= i < |part| ==> IsAlphabetic(part[i])
    ensures SingleExpression(part, implicitMultiplication).Failure? <==> part == []
  {
    BracketTypeFacts(NoBracket, if |part| > 0 then part[0] else ' ');
    if forall i :: 0 <= i < |part| ==> IsAlphabetic(part[i]) {
      DepthDifferenceBounds(part);
    }
  }

  /** The while loop of check_if_power_is_top_level from index i down to 1 (it never
      looks at index 0): the nearest earlier caret decides. */
  function LookBack(latex: seq<char>, caret: nat, i: nat, implicitMultiplication: bool): Result<bool>
    requires i < caret <= |latex|
    decreases i
  {
    if i == 0 then Success(true)
    else if latex[i] == '^' then
      var part := latex[i + 1..caret];
      if |part| == 1 then Success(false) else SingleExpression(part, implicitMultiplication)
    else LookBack(latex, caret, i - 1, implicitMultiplication)
  }

  /** `check_if_power_is_top_level`; at caret 0 the source's `caret - 1` underflows. */
  function PowerIsTopLevel(latex: seq<char>, caret: nat, implicitMultiplication: bool): Result<bool>
    requires caret <= |latex|
  {
    if caret == 0 then Failure(IndexOutOfBounds) else LookBack(latex, caret, caret - 1, implicitMultiplication)
  }

  /** With no caret at an index in 1..i the power is top level. */
  lemma {:induction false} LookBackNoCaret(latex: seq<char>, caret: nat, i: nat, implicitMultiplication: bool)
    requires i < caret <= |latex|
    requires forall j :: 0 < j <= i ==> latex[j] != '^'
    ensures LookBack(latex, caret, i, implicitMultiplication) == Success(true)
    decreases i
  {
    if i > 0 {
      LookBackNoCaret(latex, caret, i - 1, implicitMultiplication);
    }
  }

  /** Otherwise the last caret j at or below i decides, by the length of the part
      between and the single-expression check. */
  lemma {:induction false} LookBackLastCaret(latex: seq<char>, caret: nat, i: nat, j: nat, implicitMultiplication: bool)
    requires i < caret <= |latex|
    requires 0 < j <= i && latex[j] == '^' && forall k :: j < k <= i ==> latex[k] != '^'
    ensures LookBack(latex, caret, i, implicitMultiplication) ==
      (if caret - j == 2 then Success(false) else SingleExpression(latex[j + 1..caret], implicitMultiplication))
    decreases i
  {
    if i > j {
      LookBackLastCaret(latex, caret, i - 1, j, implicitMultiplication);
    }
  }

  /** The decision described by index: with no caret at an index in 1..caret-1 the power
      is top level; otherwise the last such caret j decides, by the length of the part
      between and the single-expression check; the check fails exactly at caret 0 and
      right after another caret. */
  lemma {:induction false} PowerIsTopLevelSpec(latex: seq<char>, caret: nat, implicitMultiplication: bool)
    requires caret <= |latex|
    ensures PowerIsTopLevel(latex, caret, implicitMultiplication).Failure? <==>
      caret == 0 || exists j :: 0 < j < caret && latex[j] == '^' && (forall k :: j < k < caret ==> latex[k] != '^') && caret - j == 1
    ensures caret > 0 && (forall j :: 0 < j < caret ==> latex[j] != '^') ==>
      PowerIsTopLevel(latex, caret, implicitMultiplication) == Success(true)
    ensures forall j :: 0 < j < caret && latex[j] == '^' && (forall k :: j < k < caret ==> latex[k] != '^') ==>
      PowerIsTopLevel(latex, caret, implicitMultiplication) ==
        (if caret - j == 2 then Success(false) else SingleExpression(latex[j + 1..caret], implicitMultiplication))
  {
    if caret > 0 {
      if exists j :: 0 < j < caret && latex[j] == '^' {
        var j := LastCaret(latex, caret);
        var part := latex[j + 1..caret];
        SingleExpressionSpec(part, implicitMultiplication);
        LookBackLastCaret(latex, caret, caret - 1, j, implicitMultiplication);
        assert part == [] <==> caret - j == 1;
        assert PowerIsTopLevel(latex, caret, implicitMultiplication).Failure? <==> caret - j == 1;
        forall j' | 0 < j' < caret && latex[j'] == '^' && (forall k :: j' < k < caret ==> latex[k] != '^')
          ensures PowerIsTopLevel(latex, caret, implicitMultiplication) ==
            (if caret - j' == 2 then Success(false) else SingleExpression(latex[j' + 1..caret], implicitMultiplication))
        {
          LastCaretUnique(latex, caret, j, j');
        }
      } else {
        LookBackNoCaret(latex, caret, caret - 1, implicitMultiplication);
      }
    }
  }

  /** There is only one last caret. */
  lemma {:induction false} LastCaretUnique(latex: seq<char>, caret: nat, j: nat, j2: nat)
    requires caret <= |latex|
    requires 0 < j < caret && latex[j] == '^' && forall k :: j < k < caret ==> latex[k] != '^'
    requires 0 < j2 < caret && latex[j2] == '^' && forall k :: j2 < k < caret ==> latex[k] != '^'
    ensures j == j2
  {
  }

  /** The last caret at an index in 1..caret-1, when there is one. */
  lemma {:induction false} LastCaret(latex: seq<char>, caret: nat) returns (j: nat)
    requires caret <= |latex|
    requires exists j :: 0 < j < caret && latex[j] == '^'
    ensures 0 < j < caret && latex[j] == '^' && forall k :: j < k < caret ==> latex[k] != '^'
  {
    var j0 :| 0 < j0 < caret && latex[j0] == '^';
    j := j0;
    while exists k :: j < k < caret && latex[k] == '^'
      invariant 0 < j < caret && latex[j] == '^'
      decreases caret - j
    {
      var next :| j < next < caret && latex[next] == '^';
      j := next;
    }
  }

  /** The loop of check_if_power_is_top_level as written. */
  method CheckIfPowerIsTopLevel(latex: seq<char>, caret: nat, implicitMultiplication: bool) returns (r: Result<bool>)
    requires caret <= |latex|
    ensures r == PowerIsTopLevel(latex, caret, implicitMultiplication)
  {
    if caret == 0 {
      return Failure(IndexOutOfBounds);
    }
    var i: nat := caret - 1;
    while i > 0
      invariant i < caret
      invariant LookBack(latex, caret, i, implicitMultiplication) == PowerIsTopLevel(latex, caret, implicitMultiplication)
    {
      if latex[i] == '^' {
        var partBetween := latex[i + 1..caret];
        if |partBetween| == 1 {
          return Success(false);
        }
        return SingleExpression(partBetween, implicitMultiplication);
      }
      i := i - 1;
    }
    return Success(true);
  }

  // ---------------------------------------------------------------------------
  // get_operators_in_top_level_from_latex

  /** The scan of latex[..n]. A caret at depth 0 counts as a power when it passes both
      checks; the second check is only made when the first holds, and its index error
      is the scan's. */
  function ScanPrefix(latex: seq<char>, n: nat, implicitMultiplication: bool): (r: Result<TopLevelOperators>)
    requires n <= |latex|
    ensures r.Success? ==>
      (forall j :: 0 <= j < |r.value.powers| ==> r.value.powers[j] < n) &&
      (forall j :: 0 <= j < |r.value.multiplicationsAndDivisions| ==> r.value.multiplicationsAndDivisions[j] < n) &&
      (forall j :: 0 <= j < |r.value.additionsAndSubtractions| ==> r.value.additionsAndSubtractions[j] < n)
  {
    if n == 0 then Success(TopLevelOperators([], [], []))
    else
      var ops :- ScanPrefix(latex, n - 1, implicitMultiplication);
      var i := n - 1;
      var c := latex[i];
      if ScanOpens(c) || ScanCloses(c) || ScanDepth(latex, i) != 0 then Success(ops)
      else if IsAddSub(c) then Success(ops.(additionsAndSubtractions := ops.additionsAndSubtractions + [i]))
      else if IsMulDiv(c) then Success(ops.(multiplicationsAndDivisions := ops.multiplicationsAndDivisions + [i]))
      else if c == '^' && CaretIsPower(latex, i) then
        var top :- PowerIsTopLevel(latex, i, implicitMultiplication);
        if top then Success(ops.(powers := ops.powers + [i])) else Success(ops)
      else Success(ops)
  }

  function GetOperatorsInTopLevel(latex: seq<char>, implicitMultiplication: bool): (r: Result<TopLevelOperators>)
    ensures r.Success? ==>
      (forall j :: 0 <= j < |r.value.powers| ==> r.value.powers[j] < |latex|) &&
      (forall j :: 0 <= j < |r.value.multiplicationsAndDivisions| ==> r.value.multiplicationsAndDivisions[j] < |latex|) &&
      (forall j :: 0 <= j < |r.value.additionsAndSubtractions| ==> r.value.additionsAndSubtractions[j] < |latex|)
  {
    ScanPrefix(latex, |latex|, implicitMultiplication)
  }

  /** A caret the scan counts as a top-level power. */
  predicate TopLevelPower(latex: seq<char>, j: nat, implicitMultiplication: bool)
    requires j < |latex|
  {
    latex[j] == '^' && ScanDepth(latex, j) == 0 && CaretIsPower(latex, j) &&
    PowerIsTopLevel(latex, j, implicitMultiplication) == Success(true)
  }

  /** A caret whose power check is an index error. */
  predicate BrokenCaret(latex: seq<char>, j: nat, implicitMultiplication: bool)
    requires j < |latex|
  {
    latex[j] == '^' && ScanDepth(latex, j) == 0 && CaretIsPower(latex, j) &&
    PowerIsTopLevel(latex, j, implicitMultiplication).Failure?
  }

  predicate StrictlyIncreasing(xs: seq<nat>) {
    forall a, b :: 0 <= a < b < |xs| ==> xs[a] < xs[b]
  }

  /** One step of the scan fails exactly when the step before failed or its caret is broken. */
  lemma {:induction false} ScanFailureStep(latex: seq<char>, n: nat, implicitMultiplication: bool)
    requires 0 < n <= |latex|
    ensures ScanPrefix(latex, n, implicitMultiplication).Failure? <==>
      ScanPrefix(latex, n - 1, implicitMultiplication).Failure? || BrokenCaret(latex, n - 1, implicitMultiplication)
  {
  }

  /** The scan fails exactly when a depth-0 caret passes the first power check and its
      top-level check is an index error. */
  lemma {:induction false} ScanFailure(latex: seq<char>, n: nat, implicitMultiplication: bool)
    requires n <= |latex|
    ensures ScanPrefix(latex, n, implicitMultiplication).Failure? <==>
      exists j: nat :: j < n && BrokenCaret(latex, j, implicitMultiplication)
  {
    if ScanPrefix(latex, n, implicitMultiplication).Failure? {
      var j := BrokenCaretOf(latex, n, implicitMultiplication);
    }
    forall j: nat | j < n && BrokenCaret(latex, j, implicitMultiplication)
      ensures ScanPrefix(latex, n, implicitMultiplication).Failure?
    {
      BrokenCaretFails(latex, n, j, implicitMultiplication);
    }
  }

  /** A failed scan has a broken caret. */
  lemma {:induction false} BrokenCaretOf(latex: seq<char>, n: nat, implicitMultiplication: bool) returns (j: nat)
    requires n <= |latex|
    requires ScanPrefix(latex, n, implicitMultiplication).Failure?
    ensures j < n && BrokenCaret(latex, j, implicitMultiplication)
  {
    ScanFailureStep(latex, n, implicitMultiplication);
    if ScanPrefix(latex, n - 1, implicitMultiplication).Failure? {
      j := BrokenCaretOf(latex, n - 1, implicitMultiplication);
    } else {
      j := n - 1;
    }
  }

  /** A broken caret fails every scan that reaches it. */
  lemma {:induction false} BrokenCaretFails(latex: seq<char>, n: nat, j: nat, implicitMultiplication: bool)
    requires j < n <= |latex| && BrokenCaret(latex, j, implicitMultiplication)
    ensures ScanPrefix(latex, n, implicitMultiplication).Failure?
  {
    ScanFailureStep(latex, n, implicitMultiplication);
    if j < n - 1 {
      BrokenCaretFails(latex, n - 1, j, implicitMultiplication);
    }
  }



  /** One step of the scan, class by class. */
  lemma {:induction false} ScanStep(latex: seq<char>, n: nat, implicitMultiplication: bool)
    requires 0 < n <= |latex| && ScanPrefix(latex, n, implicitMultiplication).Success?
    ensures ScanPrefix(latex, n - 1, implicitMultiplication).Success?
    ensures var prev := ScanPrefix(latex, n - 1, implicitMultiplication).value;
      var ops := ScanPrefix(latex, n, implicitMultiplication).value;
      var i := n - 1;
      ops.additionsAndSubtractions == prev.additionsAndSubtractions +
        (if IsAddSub(latex[i]) && ScanDepth(latex, i) == 0 then [i] else []) &&
      ops.multiplicationsAndDivisions == prev.multiplicationsAndDivisions +
        (if IsMulDiv(latex[i]) && ScanDepth(latex, i) == 0 then [i] else []) &&
      ops.powers == prev.powers + (if TopLevelPower(latex, i, implicitMultiplication) then [i] else [])
  {
  }

  /** Appending the index just scanned, when it belongs to the set S of the indices
      to record, keeps a list of the earlier ones increasing and exact. */
  lemma {:induction false} AppendScanned(prev: seq<nat>, n: nat, S: set<nat>)
    requires n > 0 && StrictlyIncreasing(prev) && forall k :: 0 <= k < |prev| ==> prev[k] < n - 1
    requires forall j: nat :: j in prev <==> j < n - 1 && j in S
    ensures StrictlyIncreasing(prev + (if n - 1 in S then [n - 1] else []))
    ensures forall j: nat :: j in prev + (if n - 1 in S then [n - 1] else []) <==> j < n && j in S
  {
  }


  /** An index is recorded as an addition or subtraction exactly when it holds '+' or
      '-' at depth 0, in increasing order. */
  lemma {:induction false} ScanAdditions(latex: seq<char>, n: nat, implicitMultiplication: bool)
    requires n <= |latex| && ScanPrefix(latex, n, implicitMultiplication).Success?
    ensures var ops := ScanPrefix(latex, n, implicitMultiplication).value;
      (forall j: nat :: j in ops.additionsAndSubtractions <==> j < n && IsAddSub(latex[j]) && ScanDepth(latex, j) == 0) &&
      StrictlyIncreasing(ops.additionsAndSubtractions)
  {
    if n > 0 {
      ScanAdditions(latex, n - 1, implicitMultiplication);
      ScanStep(latex, n, implicitMultiplication);
      var prev := ScanPrefix(latex, n - 1, implicitMultiplication).value.additionsAndSubtractions;
      var xs := ScanPrefix(latex, n, implicitMultiplication).value.additionsAndSubtractions;
      var S := set j: nat | j < n && IsAddSub(latex[j]) && ScanDepth(latex, j) == 0;
      assert forall j: nat :: j in prev <==> j < n - 1 && j in S;
      AppendScanned(prev, n, S);
      assert forall j: nat :: j in xs <==> j < n && j in S;
    }
  }

  /** An index is recorded as a multiplication or division exactly when it holds '*' or
      '/' at depth 0, in increasing order. */
  lemma {:induction false} ScanMultiplications(latex: seq<char>, n: nat, implicitMultiplication: bool)
    requires n <= |latex| && ScanPrefix(latex, n, implicitMultiplication).Success?
    ensures var ops := ScanPrefix(latex, n, implicitMultiplication).value;
      (forall j: nat :: j in ops.multiplicationsAndDivisions <==> j < n && IsMulDiv(latex[j]) && ScanDepth(latex, j) == 0) &&
      StrictlyIncreasing(ops.multiplicationsAndDivisions)
  {
    if n > 0 {
      ScanMultiplications(latex, n - 1, implicitMultiplication);
      ScanStep(latex, n, implicitMultiplication);
      var prev := ScanPrefix(latex, n - 1, implicitMultiplication).value.multiplicationsAndDivisions;
      var xs := ScanPrefix(latex, n, implicitMultiplication).value.multiplicationsAndDivisions;
      var S := set j: nat | j < n && IsMulDiv(latex[j]) && ScanDepth(latex, j) == 0;
      assert forall j: nat :: j in prev <==> j < n - 1 && j in S;
      AppendScanned(prev, n, S);
      assert forall j: nat :: j in xs <==> j < n && j in S;
    }
  }

  /** An index is recorded as a power exactly when it holds a caret at depth 0 that
      passes both power checks, in increasing order. */
  lemma {:induction false} ScanPowers(latex: seq<char>, n: nat, implicitMultiplication: bool)
    requires n <= |latex| && ScanPrefix(latex, n, implicitMultiplication).Success?
    ensures var ops := ScanPrefix(latex, n, implicitMultiplication).value;
      (forall j: nat :: j in ops.powers <==> j < n && TopLevelPower(latex, j, implicitMultiplication)) &&
      StrictlyIncreasing(ops.powers)
  {
    if n > 0 {
      ScanPowers(latex, n - 1, implicitMultiplication);
      ScanStep(latex, n, implicitMultiplication);
      var prev := ScanPrefix(latex, n - 1, implicitMultiplication).value.powers;
      var xs := ScanPrefix(latex, n, implicitMultiplication).value.powers;
      var S := set j: nat | j < n && TopLevelPower(latex, j, implicitMultiplication);
      assert forall j: nat :: j in prev <==> j < n - 1 && j in S;
      AppendScanned(prev, n, S);
      assert forall j: nat :: j in xs <==> j < n && j in S;
    }
  }

  lemma {:induction false} ScanSpec(latex: seq<char>, implicitMultiplication: bool)
    ensures GetOperatorsInTopLevel(latex, implicitMultiplication).Failure? <==>
      exists j: nat :: j < |latex| && BrokenCaret(latex, j, implicitMultiplication)
    ensures GetOperatorsInTopLevel(latex, implicitMultiplication).Success? ==>
      var ops := GetOperatorsInTopLevel(latex, implicitMultiplication).value;
      (forall j: nat :: j in ops.additionsAndSubtractions <==> j < |latex| && IsAddSub(latex[j]) && ScanDepth(latex, j) == 0) &&
      (forall j: nat :: j in ops.multiplicationsAndDivisions <==> j < |latex| && IsMulDiv(latex[j]) && ScanDepth(latex, j) == 0) &&
      (forall j: nat :: j in ops.powers <==> j < |latex| && TopLevelPower(latex, j, implicitMultiplication)) &&
      StrictlyIncreasing(ops.additionsAndSubtractions) &&
      StrictlyIncreasing(ops.multiplicationsAndDivisions) &&
      StrictlyIncreasing(ops.powers)
  {
    ScanFailure(latex, |latex|, implicitMultiplication);
    if GetOperatorsInTopLevel(latex, implicitMultiplication).Success? {
      ScanAdditions(latex, |latex|, implicitMultiplication);
      ScanMultiplications(latex, |latex|, implicitMultiplication);
      ScanPowers(latex, |latex|, implicitMultiplication);
    }
  }

  /** The scan as written: one pass with a depth counter; the first failing power check
      ends it. */
  method ScanOperators(latex: seq<char>, implicitMultiplication: bool) returns (r: Result<TopLevelOperators>)
    ensures r == GetOperatorsInTopLevel(latex, implicitMultiplication)
  {
    var depth := 0;
    var powers: seq<nat> := [];
    var multiplicationsAndDivisions: seq<nat> := [];
    var additionsAndSubtractions: seq<nat> := [];
    for i := 0 to |latex|
      invariant depth == ScanDepth(latex, i)
      invariant ScanPrefix(latex, i, implicitMultiplication) ==
        Success(TopLevelOperators(powers, multiplicationsAndDivisions, additionsAndSubtractions))
    {
      var c := latex[i];
      if ScanOpens(c) {
        depth := depth + 1;
      } else if ScanCloses(c) {
        depth := depth - 1;
      } else if depth == 0 {
        if IsAddSub(c) {
          additionsAndSubtractions := additionsAndSubtractions + [i];
        } else if IsMulDiv(c) {
          multiplicationsAndDivisions := multiplicationsAndDivisions + [i];
        } else if c == '^' {
          if CaretIsPower(latex, i) {
            var top := CheckIfPowerIsTopLevel(latex, i, implicitMultiplication);
            if top.Failure? {
              ScanStops(latex, i + 1, implicitMultiplication);
              return Failure(top.error);
            }
            if top.value {
              powers := powers + [i];
            }
          }
        }
      }
    }
    return Success(TopLevelOperators(powers, multiplicationsAndDivisions, additionsAndSubtractions));
  }

  lemma {:induction false} ScanStops(latex: seq<char>, n: nat, implicitMultiplication: bool)
    requires n <= |latex| && ScanPrefix(latex, n, implicitMultiplication).Failure?
    ensures GetOperatorsInTopLevel(latex, implicitMultiplication) == ScanPrefix(latex, n, implicitMultiplication)
    decreases |latex| - n
  {
    if n < |latex| {
      ScanStops(latex, n + 1, implicitMultiplication);
    }
  }
}
