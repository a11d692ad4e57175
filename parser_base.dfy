/** The vocabulary of fishrambeta/src/parser.rs: bracket kinds, the intermediate
    representation `IR`, the character classes the parser tests, and
    `calculate_depth_difference`. */
module ParserBase {

  /** `BracketType`; the source's `None` variant is `NoBracket` here. */
  datatype BracketType = NoBracket | Curly | Square | Round | Angle

  /** The parse tree between LaTeX text and `Equation`: a name (an operator, a command
      or a leaf's text), its parameters, and the brackets it was written in. */
  datatype IR = IR(name: seq<char>, parameters: seq<IR>, surroundingBrackets: BracketType)

  const LeftAngle: char := '\U{27E8}'
  const RightAngle: char := '\U{27E9}'

  function OpeningBracket(b: BracketType): char {
    match b
    case NoBracket => ' '
    case Angle => LeftAngle
    case Curly => '{'
    case Square => '['
    case Round => '('
  }

  function ClosingBracket(b: BracketType): char {
    match b
    case NoBracket => ' '
    case Curly => '}'
    case Square => ']'
    case Round => ')'
    case Angle => RightAngle
  }

  predicate IsOpeningBracket(c: char) {
    c == '{' || c == '[' || c == '(' || c == LeftAngle
  }

  predicate IsClosingBracket(c: char) {
    c == '}' || c == ']' || c == ')' || c == RightAngle
  }

  function GetOpeningBracketType(c: char): BracketType {
    match c
    case '(' => Round
    case '[' => Square
    case '{' => Curly
    case _ => if c == LeftAngle then Angle else NoBracket
  }

  /** The bracket helpers agree with each other: the opening character of a kind maps
      back to that kind (the blank of NoBracket to NoBracket), a character opens a
      bracket exactly when it has a kind, no character both opens and closes, and each
      kind's closing character closes. */
  lemma {:induction false} BracketTypeFacts(b: BracketType, c: char)
    ensures GetOpeningBracketType(OpeningBracket(b)) == b
    ensures IsOpeningBracket(c) <==> GetOpeningBracketType(c) != NoBracket
    ensures !(IsOpeningBracket(c) && IsClosingBracket(c))
    ensures b != NoBracket ==> IsOpeningBracket(OpeningBracket(b)) && IsClosingBracket(ClosingBracket(b))
    ensures b == NoBracket ==> !IsOpeningBracket(OpeningBracket(b)) && !IsClosingBracket(ClosingBracket(b))
  {
  }

  /** `char::is_numeric`, approximated by the ASCII digits. */
  predicate IsNumeric(c: char) {
    '0' <= c <= '9'
  }

  /** `char::is_alphabetic`, approximated by the ASCII letters. */
  predicate IsAlphabetic(c: char) {
    ('a' <= c <= 'z') || ('A' <= c <= 'Z')
  }

  /** The change in bracket depth one character makes. */
  function Delta(c: char): int {
    (if IsOpeningBracket(c) then 1 else 0) - (if IsClosingBracket(c) then 1 else 0)
  }

  /** `calculate_depth_difference`: opening brackets minus closing brackets, all four
      kinds counted. */
  function DepthDifference(s: seq<char>): int {
    if s == [] then 0 else DepthDifference(s[..|s| - 1]) + Delta(s[|s| - 1])
  }

  /** Counted from the other end, character by character. */
  lemma {:induction false} DepthDifferenceAppend(a: seq<char>, b: seq<char>)
    ensures DepthDifference(a + b) == DepthDifference(a) + DepthDifference(b)
  {
    if b == [] {
      assert a + b == a;
    } else {
      assert (a + b)[..|a + b| - 1] == a + b[..|b| - 1];
      DepthDifferenceAppend(a, b[..|b| - 1]);
    }
  }

  /** The difference is bounded by the length, is 0 on text without brackets, and a
      bracket pair around balanced text stays balanced. */
  lemma {:induction false} DepthDifferenceBounds(s: seq<char>)
    ensures -|s| <= DepthDifference(s) <= |s|
    ensures (forall i :: 0 <= i < |s| ==> !IsOpeningBracket(s[i]) && !IsClosingBracket(s[i])) ==>
      DepthDifference(s) == 0
  {
    if s != [] {
      DepthDifferenceBounds(s[..|s| - 1]);
    }
  }

  lemma {:induction false} DepthDifferenceWrapped(b: BracketType, s: seq<char>)
    requires b != NoBracket
    ensures DepthDifference([OpeningBracket(b)] + s + [ClosingBracket(b)]) == DepthDifference(s)
  {
    DepthDifferenceAppend([OpeningBracket(b)] + s, [ClosingBracket(b)]);
    DepthDifferenceAppend([OpeningBracket(b)], s);
    assert [OpeningBracket(b)][..0] == [];
    assert [ClosingBracket(b)][..0] == [];
  }

  /** The loop of calculate_depth_difference. */
  method CalculateDepthDifference(latex: seq<char>) returns (depthDiff: int)
    ensures depthDiff == DepthDifference(latex)
  {
    depthDiff := 0;
    for i := 0 to |latex|
      invariant depthDiff == DepthDifference(latex[..i])
    {
      assert latex[..i + 1][..i] == latex[..i];
      if IsOpeningBracket(latex[i]) {
        depthDiff := depthDiff + 1;
      }
      if IsClosingBracket(latex[i]) {
        depthDiff := depthDiff - 1;
      }
    }
    assert latex[..|latex|] == latex;
  }
}
