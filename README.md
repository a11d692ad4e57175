# fishrambeta core, modelled in Dafny

fishrambeta is a small symbolic-algebra engine written in Rust. This project models four parts of it and proves properties of the model:

- the expression tree `Equation` / `Variable` / `Constant`, with the total order Rust derives for it (`#[derive(Ord)]`) and `get_number_or_none` (`fishrambeta/src/math/mod.rs`);
- the factor analyser `has_factor`, `get_all_factors`, `get_factors`, `shared_factors` and `remove_factor` (`fishrambeta/src/math/factors.rs`);
- the simplifier `simplify` with its `simplify_addition`, `simplify_multiplication`, `simplify_power` and `simplify_division` rules (`fishrambeta/src/math/simplify.rs`);
- the LaTeX parser (`fishrambeta/src/parser.rs`):
  - bracket kinds and depth counting;
  - the scan for operators at depth 0, and the checks that decide whether a caret is a power;
  - the precedence split of `latex_to_ir`, command and parameter extraction, and `cleanup_latex`;
  - `latex_to_equation`;
  - the conversions between the intermediate representation `IR` and `Equation`, and `ir_to_latex`.

## Structure

| module (file) | contents |
|---|---|
| `Wrappers` (wrappers.dfy) | `Option`, `Result` and the `Error` kinds. A `panic!`, a `todo!()`, a failed `unwrap` or an index past the end of a `Vec` in the source becomes a `Failure` with a named error. |
| `Rationals` (rationals.dfy) | `Rational64::new` and `Rational64::from`: reduction by Euclid's gcd, and a zero denominator as an error. |
| `Expressions` (expressions.dfy) | The datatypes, the derived order `Cmp` / `Lt`, and `GetNumberOrNone`. |
| `TermMap` (term_map.dfy) | `BTreeMap<Equation, V>`, modelled as an association list sorted by `Lt`. It has `Get` and `Insert`, and a list iterates in key order. |
| `Factors` (factors.dfy) | The factor functions, and the `for` loop of `shared_factors` as a method. |
| `Simplifier` (simplify.dfy) | `simplify` and its four rules, as functions. |
| `SimplifyLoops` (simplify_loops.dfy) | The source's loops over vectors and maps, as methods. Each is proved to compute the matching `Simplifier` function. |
| `SimplifyFacts` (simplify_facts.dfy) | The rewrite rules, stated and proved about `Simplifier`. |
| `ParserBase` (parser_base.dfy) | `BracketType`, `IR`, character classes, and `calculate_depth_difference`. |
| `OperatorScan` (operator_scan.dfy) | `get_operators_in_top_level_from_latex`, `check_if_caret_is_power`, `check_if_power_is_top_level` and `check_if_part_is_single_expression`. |
| `Lowering` (lowering.dfy) | `ir_to_equation`, `equation_to_ir`, `ir_to_latex` and `equation_to_latex`. |
| `LatexParser` (latex_parser.dfy) | `latex_to_ir`, `get_first_parameter`, `cleanup_latex` and `latex_to_equation`. The loops that consume the text are methods. |
| `ParserFacts` (parser_facts.dfy) | Command splitting, bracketed-parameter extraction and `cleanup_latex`. |
| `LatexToIrFacts` (latex_to_ir_facts.dfy) | How `latex_to_ir` splits a text; commands, fractions and leaves; worked texts; the balance check of `latex_to_equation`. |

### How the model is built

**The simplifier takes its helpers as parameters.** `simplify` calls `calculate_exact` and `multiply_by`, which live in files outside this model. Both are passed in as the function fields of an `Oracles` value, and nothing is assumed about them. Every statement about the simplifier therefore holds for any such pair of helpers.

**The simplifier carries fuel.** Its recursion is not structural: it simplifies rebuilt nodes such as `Multiplication([term, count])` and `Power(base, Multiplication([e1, e2]))`. So every call takes `fuel` and returns `Failure(OutOfFuel)` when the fuel runs out.

`SimplifyFacts.SimplifyFuel` proves that fuel is only a bound: once a call does not run out, more fuel gives the same result.

**Loops become methods.** Where the source loops while changing local vectors, maps or counters, the model has a method with loop invariants. Its `ensures` says it computes the function the rest of the model reasons about.

**Integers follow the source's widths where that matters.** Integers are unbounded, with these exceptions:
- an `i64` parse that overflows is modelled as an error;
- Rust's `!` on an `i32` is modelled as the bitwise complement `-x - 1`.

**Characters are approximated.** `char::is_numeric` and `char::is_alphabetic` are approximated by ASCII digits and letters.

**Subtraction is lowered.** `Equation` has no `Subtraction` variant, even though `ir_to_equation` builds one at `fishrambeta/src/parser.rs:240-247`. The model lowers a `-` node with children `c0, c1, …` to `Addition([c0, Negative(c1), …])`.

**Where the model follows the code rather than what it seems to mean.**
- `check_if_part_is_single_expression` tests `part[0]` for being both an opening and a closing bracket. That can never hold, so its bracket branch is dead. The model keeps the test, and `OperatorScan.SingleExpressionSpec` proves what the function then computes.
- The second `{` test in `check_if_caret_is_power` looks for a `{` before the first `{`, which can never be found, so it never fires. The model leaves it out.
- When `latex_to_ir` records two or more top-level powers, it splits the already-shortened text at positions counted in the original text. The model keeps that behaviour: `LatexToIrFacts.ChainedPowersExample` shows that `a^bc^d` reaches an index error. Split properties are stated for a single power only.

## Model

| member | source | states |
|---|---|---|
| Expressions.StrictTotalOrder | fishrambeta/src/math/mod.rs:12-39 | The derived order is a strict total order: irreflexive and transitive, any two distinct expressions compare exactly one way, and equal expressions compare `Equal`. |
| Expressions.CmpEqual | fishrambeta/src/math/mod.rs:12-24 | The derived `Ord` says `Equal` exactly when the derived `Eq` holds, i.e. on structurally equal expressions. |
| Expressions.CmpFlip | fishrambeta/src/math/mod.rs:12-24 | Swapping the operands reverses the comparison (antisymmetry). |
| Expressions.CmpTrans | fishrambeta/src/math/mod.rs:12-24 | `a < b` and `b < c` give `a < c`, through nested vectors and strings. |
| Expressions.VariantOrder | fishrambeta/src/math/mod.rs:13-24 | A variant declared earlier is smaller, whatever its fields: Variable < Negative < Addition < Multiplication < Division < Power < Ln < Equals < Sin < Cos. |
| Expressions.VariableOrder | fishrambeta/src/math/mod.rs:26-39 | For all variables: a kind declared earlier is smaller (Integer < Rational < Constant < Letter < Vector). Two integers compare by value. Two Rationals compare by (numerator, denominator), first the numerator, then the denominator, so the order ignores the value. Of two constants only PI < E holds. |
| Expressions.VariableOrderExamples | fishrambeta/src/math/mod.rs:26-39 | Instances of that order: 100 < 0/1, 5/1 < PI, PI < E, E < the letter a, the letter z < the vector a, and 1/2 < 2/4 and 1/2 < 1/3 although 1/2 = 2/4 and 1/2 > 1/3 as numbers. |
| Expressions.GetNumberOrNone | fishrambeta/src/math/mod.rs:42-48 | An Integer gives its value. A Rational with a nonzero denominator gives the same value in lowest terms. A zero denominator is an error. Every other node gives None. |
| Expressions.EqualityIsStructural | fishrambeta/src/math/mod.rs:26-33 | `Rational(1,2)` and `Rational(2,4)` are different expressions, yet `get_number_or_none` gives both the value 1/2. |
| Rationals.NewRat | fishrambeta/src/math/mod.rs:45 | `Rational64::new` fails exactly on a zero denominator. Otherwise it gives lowest terms with a positive denominator, of the same value. |
| Rationals.FromInteger | fishrambeta/src/math/mod.rs:44 | An integer becomes the reduced rational n/1. |
| TermMap.InsertFacts | fishrambeta/src/math/simplify.rs:56-62 | `BTreeMap::insert` binds the key to the new value, leaves every other key's lookup unchanged, adds exactly that key, and keeps the map sorted. |
| TermMap.GetFacts | fishrambeta/src/math/simplify.rs:56 | A lookup finds a binding exactly when the key is in the map, and the binding is an entry of the map. |
| TermMap.SortedUnique | fishrambeta/src/math/simplify.rs:66 | Two sorted maps with the same lookups are the same list, so iteration order is determined by the contents. |
| Factors.HasFactorReflexive | fishrambeta/src/math/factors.rs:4-7 | Every expression has itself as a factor. |
| Factors.HasFactorByVariant | fishrambeta/src/math/factors.rs:4-22 | By variant: a Power has f iff it is f or its base is f. A Negative has f iff it is f or its operand has f. A Multiplication needs some child with f; an Addition needs every child, so an empty Addition has every factor. All other nodes have only themselves. |
| Factors.AnyHasFactorIff | fishrambeta/src/math/factors.rs:13-15 | `iter().any(has_factor)` holds iff some element has the factor. |
| Factors.AllHaveFactorIff | fishrambeta/src/math/factors.rs:16-18 | `iter().all(has_factor)` holds iff every element has the factor. |
| Factors.GetAllFactors | fishrambeta/src/math/factors.rs:24-33 | The list starts with e. It continues with a Multiplication's children or a Power's base, and has length 1 for any other node. |
| Factors.AllFactorsAreFactors | fishrambeta/src/math/factors.rs:24-33 | Every listed expression is a factor of e. |
| Factors.GetFactorsIsAllFactors | fishrambeta/src/math/factors.rs:35-41 | The `has_factor` filter of `get_factors` removes nothing: it equals `get_all_factors`. |
| Factors.SharedFactorsSpec | fishrambeta/src/math/factors.rs:43-52 | `shared_factors(a, b)` is the order-preserving subsequence of `get_all_factors(a)` whose elements b has as factors. Each element is a factor of both a and b. When b has a as a factor, a comes first. Each such element occurs as often as in `get_all_factors(a)`, and the others not at all. |
| Factors.ComputeSharedFactors | fishrambeta/src/math/factors.rs:43-52 | The push loop computes exactly `shared_factors`. |
| Factors.Remove | fishrambeta/src/math/factors.rs:54-102 | Under `has_factor`: removing e from itself gives 1. A Negative stays Negative. A Multiplication or Addition keeps its length, so the `new.len() == 0` branch, kept as written, never gives 1 for a product. A Power becomes `Power(base, Addition([exp, -1]))`. No other node reaches the final `return self`. |
| Factors.RemoveByVariant | fishrambeta/src/math/factors.rs:63-97 | In a Multiplication every child that has f has it removed and the others stay. In an Addition every child has f and has it removed. A Negative removes it from its operand. Every recursive call meets the precondition. |
| Factors.RemoveWhereFactor | fishrambeta/src/math/factors.rs:67-77 | The Multiplication map keeps the length. Each child has f removed if it has f, and is kept as it is otherwise. |
| Factors.RemoveFactor | fishrambeta/src/math/factors.rs:54-57 | `remove_factor` refuses, with `NotAFactor`, exactly the f that are not factors. Otherwise it gives the removal. |
| Factors.OneFactors | fishrambeta/src/math/factors.rs:4-22 | The literal 1 has no factor but itself. |
| Simplifier.FromExact | fishrambeta/src/math/simplify.rs:6-16 | An exactly computed value becomes an Integer literal iff its denominator is 1; otherwise it becomes the Rational (numerator, denominator). |
| SimplifyFacts.ExactFolding | fishrambeta/src/math/simplify.rs:6-16 | When `calculate_exact` gives a value, `simplify` returns its literal before looking at the node. |
| SimplifyFacts.SimplifyFuel | fishrambeta/src/math/simplify.rs:5-44 | A result that did not run out of fuel is the same with any larger fuel. |
| SimplifyFacts.NegativeRules | fishrambeta/src/math/simplify.rs:19-31 | A double negation simplifies the inner operand. The negation of an Integer literal n is the literal −n, including 0. The negation of a Rational (p, q) is (−p, q). Anything else becomes the Negative of the simplified operand. |
| SimplifyFacts.NegatedLiteralValue | fishrambeta/src/math/simplify.rs:21-29 | The literal a negated number simplifies to denotes the negated value. |
| SimplifyFacts.RebuiltNodes | fishrambeta/src/math/simplify.rs:17-43 | A Variable that is not folded is returned unchanged. Ln, Sin, Cos and Equals rewrap their simplified children, and fail exactly when a child does. |
| SimplifyFacts.SimplifyEachSpec | fishrambeta/src/math/simplify.rs:50-51 | Simplifying a list succeeds iff every element simplifies, giving the elements' results in order. A failure is the first failing element's error. |
| SimplifyFacts.GroupAddendsSpec | fishrambeta/src/math/simplify.rs:50-63 | The grouping map is sorted. It maps each sign-stripped term to the ±1 units of its occurrences, in order, and holds no other keys. |
| SimplifyFacts.UnitsOfSpec | fishrambeta/src/math/simplify.rs:51-54 | Every collected unit is 1 or −1. A term has units iff it occurs among the stripped addends. |
| SimplifyFacts.GroupAddendsKeys | fishrambeta/src/math/simplify.rs:47-63 | The map's keys are exactly the distinct stripped terms, one entry each. |
| SimplifyFacts.EmitAddendsSpec | fishrambeta/src/math/simplify.rs:65-73 | The second loop emits one addend per map entry, in key order. Each addend is `Multiplication([term, Addition(units).simplify()]).simplify()`. |
| SimplifyFacts.AdditionMergesLikeTerms | fishrambeta/src/math/simplify.rs:47-76 | A simplified Addition is an Addition with one addend per distinct sign-stripped term, emitted in ascending term order from that term's units. |
| SimplifyFacts.TallySpec | fishrambeta/src/math/simplify.rs:79-107 | The factor map is sorted and counts each stripped factor, with the literal 1 dropped. The sign flag ends set exactly when an odd number of factors were negations. |
| SimplifyFacts.TallyKeys | fishrambeta/src/math/simplify.rs:85-106 | A term is a key of the factor map iff it occurs at least once. |
| SimplifyFacts.ScanFactorsSimplified | fishrambeta/src/math/simplify.rs:81-85 | A scan that met no zero lists every factor's simplification in order, none of them 0. |
| SimplifyFacts.EmitFactorsSpec | fishrambeta/src/math/simplify.rs:110-123 | The second loop emits one factor per map entry. A factor counted once is kept; one counted c ≠ 1 times becomes `Power(f, c).simplify()`. |
| SimplifyFacts.MultiplicationByZero | fishrambeta/src/math/simplify.rs:81-84 | A product one of whose factors simplifies to 0 is 0, when every factor before it simplifies. |
| SimplifyFacts.MultiplicationOfOnes | fishrambeta/src/math/simplify.rs:78-139 | A product whose factors all simplify to 1 leaves nothing to multiply, and `simplified_multiplication[0]` is an index error. |
| SimplifyFacts.MultiplicationSingleFactor | fishrambeta/src/math/simplify.rs:125-130 | When exactly one factor other than 1 remains, counted once, the product is that factor, wrapped in Negative iff an odd number of factors were negations. |
| SimplifyFacts.MultiplyOutCollects | fishrambeta/src/math/simplify.rs:110-145 | Every result: the counted factors are emitted in key order. With one factor, the result is that factor. Otherwise it is `multiply_by(Multiplication(rest), first)`. Either way, the sign is applied by the parity of negations. |
| SimplifyFacts.MultiplicationCollects | fishrambeta/src/math/simplify.rs:78-145 | A product of factors that simplify to nonzero ss, when not folded exactly, is the tally-and-emit outcome on ss. |
| SimplifyFacts.PowerRules | fishrambeta/src/math/simplify.rs:148-184 | A simplified exponent 1 gives the base. A Multiplication base gives a same-length Multiplication of `Power(term, exponent)` whose terms are not re-simplified. A Power base with an exponent of the same literal kind (both Integer or both Rational) is merged into `Power(b, Multiplication([e1, e2])).simplify()`. Anything else stays a Power. |
| SimplifyFacts.DivisionOutcome | fishrambeta/src/math/simplify.rs:187-208 | For a quotient that is not folded exactly: both sides are simplified, `shared_factors(denominator, numerator)` is cancelled, and both cancelled sides are simplified again. Then a numerator 0 gives 0, checked before the denominator. Otherwise a denominator 1 gives the numerator, and anything else is a Division. |
| SimplifyFacts.CancelFactorsAppend | fishrambeta/src/math/simplify.rs:191-196 | Cancelling a list of factors is cancelling its parts one after the other. Each factor is removed from both sides only when both still have it. |
| SimplifyFacts.DivisionBySelf | fishrambeta/src/math/simplify.rs:187-207 | `x / x` simplifies to 1 whenever x simplifies, given that `calculate_exact` leaves 1 as 1. |
| SimplifyFacts.SumOfOneNeedsExactFolding | fishrambeta/src/math/simplify.rs:47-76 | If `calculate_exact` does not fold `Addition([1])`, simplifying it never terminates: it rebuilds itself through `Multiplication([1, Addition([1]).simplify()])`. |
| SimplifyLoops.SimplifyAdditionLoop | fishrambeta/src/math/simplify.rs:47-76 | The two loops of `simplify_addition` over the BTreeMap compute `SimplifyAddition`. |
| SimplifyLoops.GroupAddendsLoop | fishrambeta/src/math/simplify.rs:48-63 | The `get_mut` / `push` / `insert` loop builds the grouping map of the simplified addends, or stops with the first simplification error. |
| SimplifyLoops.EmitAddendsLoop | fishrambeta/src/math/simplify.rs:65-73 | The emit loop computes `EmitAddends`. |
| SimplifyLoops.SimplifyMultiplicationLoop | fishrambeta/src/math/simplify.rs:78-146 | The loops of `simplify_multiplication` compute `SimplifyMultiplication`, including the early return of 0. |
| SimplifyLoops.CountFactors | fishrambeta/src/math/simplify.rs:79-108 | The counting loop with its mutable `negative` flag ends with the map and flag of `Tally` over the simplified factors, or reports the zero or the error where the loop stops. |
| SimplifyLoops.CountFactor | fishrambeta/src/math/simplify.rs:83-106 | One pass of the loop body: a 1 is skipped, a Negative flips the flag and is stripped, and the term's count goes up by one. |
| SimplifyLoops.TallyAppend | fishrambeta/src/math/simplify.rs:81-107 | The tally of one more factor is the loop body applied to the tally so far. |
| SimplifyLoops.EmitFactorsLoop | fishrambeta/src/math/simplify.rs:110-123 | The emit loop computes `EmitFactors`. |
| SimplifyLoops.DistributePower | fishrambeta/src/math/simplify.rs:157-162 | The push loop raises each factor to the exponent, in order. |
| SimplifyLoops.CancelSharedFactors | fishrambeta/src/math/simplify.rs:191-196 | The loop that reassigns numerator and denominator cancels `shared_factors(denominator, numerator)`, computed once before the loop. |
| SimplifyLoops.SimplifyDivisionLoop | fishrambeta/src/math/simplify.rs:187-208 | `simplify_division` as written computes `SimplifyDivision`. |
| SimplifyLoops.CancelAndDivideSteps | fishrambeta/src/math/simplify.rs:191-207 | The cancel / re-simplify / test steps compute `CancelAndDivide`. |
| ParserBase.BracketTypeFacts | fishrambeta/src/parser.rs:598-631 | `get_opening_bracket_type(opening_bracket(b)) == b` for all five kinds, with None written as a blank. A character is an opening bracket iff its bracket type is not None. No character both opens and closes. |
| ParserBase.DepthDifferenceAppend | fishrambeta/src/parser.rs:563-574 | The depth difference is additive over concatenation. |
| ParserBase.DepthDifferenceBounds | fishrambeta/src/parser.rs:563-574 | The depth difference lies between −length and length, and is 0 on text without brackets. |
| ParserBase.DepthDifferenceWrapped | fishrambeta/src/parser.rs:563-574 | Wrapping a text in a bracket pair keeps its depth difference. |
| ParserBase.CalculateDepthDifference | fishrambeta/src/parser.rs:563-574 | The counting loop computes openers minus closers over `{[(⟨` and `}])⟩`. |
| OperatorScan.ScanSpec | fishrambeta/src/parser.rs:374-411 | The scan fails iff some depth-0 power caret has a failing top-level check. Otherwise each list holds exactly the indices of its operator class (`+-`, `*/`, or a `^` that is a top-level power) at depth 0, strictly increasing. Depth counts only `{([` against `})]`. |
| OperatorScan.ScanOperators | fishrambeta/src/parser.rs:374-411 | The one-pass loop with its depth counter computes `GetOperatorsInTopLevel`. |
| OperatorScan.CaretAfterIntegral | fishrambeta/src/parser.rs:413-455 | A caret right after `\int` is a superscript, whatever stands around it. |
| OperatorScan.CaretAfterIntegralSubscript | fishrambeta/src/parser.rs:439-453 | So is a caret after `\int_` and a subscript with no backslash or `{`: the text is cut at the first `_`. |
| OperatorScan.CaretOutsideCommands | fishrambeta/src/parser.rs:413-455 | With no backslash or `_` before it, and no leading `int`, a caret is a power. |
| OperatorScan.SuperscriptExample | fishrambeta/src/parser.rs:652-656 | The source's first test: the caret of `\int^10{a}{b}` at index 4 is not a power. |
| OperatorScan.PowerExample | fishrambeta/src/parser.rs:657-663 | The source's second test: the caret of `\frac{a}{b}^10` at index 11 is a power. |
| OperatorScan.PowerAfterFraction | fishrambeta/src/parser.rs:423-434 | The `{`-after-a-letter rule makes the caret after any one-character fraction `\frac{a}{b}^10` a power. |
| OperatorScan.CharsUntilCommandStart | fishrambeta/src/parser.rs:414-422 | The backward loop collects exactly the text between the last backslash and the caret. |
| OperatorScan.SingleExpressionSpec | fishrambeta/src/parser.rs:480-500 | The bracket branch never fires. The part is one expression iff implicit multiplication is on and the part is a non-empty run of letters. Reading `part[0]`, the check fails exactly on an empty part. |
| OperatorScan.PowerIsTopLevelSpec | fishrambeta/src/parser.rs:457-478 | A power is top level when no earlier caret exists at index ≥ 1. Otherwise the nearest earlier caret decides: one character between them gives false, and a longer part is tested as a single expression. The check fails at caret 0 (the `caret - 1` underflow) and on an empty part. |
| OperatorScan.CheckIfPowerIsTopLevel | fishrambeta/src/parser.rs:457-478 | The walk back with `i -= 1` computes `PowerIsTopLevel`. |
| LatexParser.CommandLength | fishrambeta/src/parser.rs:85-98 | The command name runs up to the first of `{ ( [ ^ _`, or to the end of the text. |
| LatexParser.ReadCommand | fishrambeta/src/parser.rs:82-98 | The `remove(0)` / `push` loop computes `CommandSplit`. |
| ParserFacts.CommandSplitSpec | fishrambeta/src/parser.rs:82-98 | Only empty text fails. Otherwise the command and the rest concatenate to the text, no command character stops a command, and the rest is empty or starts with a stop character. |
| LatexParser.GetFirstParameter | fishrambeta/src/parser.rs:575-589 | The `while depth > 0` loop over a mutable text computes `SplitFirstParameter`. |
| LatexParser.SplitFirstParameter | fishrambeta/src/parser.rs:575-589 | A successful cut accounts for every character: the parameter, the rest and the two brackets. |
| ParserFacts.ScanParameterSpec | fishrambeta/src/parser.rs:579-586 | The parameter loop stops at the first index where the running depth, updated by the character after each pushed one, drops to 0. |
| ParserFacts.SplitFirstParameterSpec | fishrambeta/src/parser.rs:575-589 | A cut (b, parameter, rest) is the result iff the text is opener + parameter + closer + rest, b is the opener's kind, the parameter is non-empty, and the depth first drops below zero at the closer. Depth after the parameter's first character is counted. |
| ParserFacts.SplitFirstParameterCloses | fishrambeta/src/parser.rs:579-587 | The character removed after the parameter is a closing bracket, and the parameter without its first character is balanced. |
| ParserFacts.NestedParameterQuirk | fishrambeta/src/parser.rs:579-586 | The depth is updated by the character after the one pushed, so `{{a}}` is cut as `{a` with rest `}`. |
| LatexParser.PowerParts | fishrambeta/src/parser.rs:60-69 | Every part is no longer than the text, and strictly shorter when a power was split. |
| LatexParser.SplitPowers | fishrambeta/src/parser.rs:61-69 | The power loop, which reassigns `latex` after each split, computes `PowerParts`. Each index is applied to the already-shortened text. |
| LatexToIrFacts.SplitsAtFirstAdditive | fishrambeta/src/parser.rs:34-46 | With a `+` or `-` at depth 0, the text splits at the first one into a node named by that operator. Its two parameters are the left and right texts, and the split fails exactly when a side fails. |
| LatexToIrFacts.SplitsAtFirstMultiplicative | fishrambeta/src/parser.rs:47-59 | Without additive operators, it splits in the same way at the first depth-0 `*` or `/`. |
| LatexToIrFacts.SplitsAtOnlyPower | fishrambeta/src/parser.rs:60-80 | With no additive or multiplicative operator and exactly one top-level power, the text becomes a `^` node of the base and exponent texts. |
| LatexToIrFacts.NoOperatorsNoSplit | fishrambeta/src/parser.rs:81-198 | Text with no depth-0 operator is parsed as a command when it starts with a backslash, and as a leaf otherwise. |
| LatexToIrFacts.LeafText | fishrambeta/src/parser.rs:167-197 | Outcomes for a leaf: a backslash or opening bracket inside is a todo!(). Digits mixed with other characters are a todo!(). All digits, or no digit at all, is a leaf node; with implicit multiplication on, a letter leaf loses its brackets. |
| LatexToIrFacts.CommandText | fishrambeta/src/parser.rs:99-166 | `\int` is always an error. Any other bare command is a leaf named by it when nothing follows, and a trailing-text error otherwise. |
| LatexToIrFacts.FractionCommand | fishrambeta/src/parser.rs:103-124 | `frac{a}{b}` after the backslash is a `frac` node of the two curly-bracketed parameters, and fails exactly when one of them fails. |
| LatexToIrFacts.FractionText | fishrambeta/src/parser.rs:81-124 | The same for the whole text `\frac{a}{b}`, with no depth-0 operator found by the scan. |
| LatexToIrFacts.FractionParameters | fishrambeta/src/parser.rs:110-117 | The two braced parameters are cut one after the other. |
| LatexToIrFacts.LeadingCaretFails | fishrambeta/src/parser.rs:457-462 | A text starting with `^` fails, because the power check underflows at index 0. |
| LatexToIrFacts.ChainedPowersExample | fishrambeta/src/parser.rs:60-69 | `a^bc^d` with implicit multiplication records two powers, and the second index splits the shortened text past its end. |
| LatexToIrFacts.ChainedPowersScan | fishrambeta/src/parser.rs:374-411 | For letters a, b, c and d, `a^bc^d` with implicit multiplication has top-level powers at 1 and 4 and no other operator. |
| ParserFacts.RemoveSpacesSpec | fishrambeta/src/parser.rs:671 | Removing blanks leaves none, never lengthens, and keeps blank-free text unchanged. |
| ParserFacts.ReplaceCdotSpec | fishrambeta/src/parser.rs:670 | Replacing `\cdot` never lengthens, changes nothing without a backslash, and keeps the depth difference. |
| ParserFacts.ReplaceCdotLeavesNone | fishrambeta/src/parser.rs:670 | No `\cdot` survives the left-to-right replacement. |
| ParserFacts.ReplaceCdotAfterPlain | fishrambeta/src/parser.rs:670 | A `\cdot` after backslash-free text becomes `*` in place. |
| ParserFacts.CleanupSpec | fishrambeta/src/parser.rs:666-674 | `cleanup_latex` output has no blanks, is never longer, keeps the depth difference, and leaves text with no backslash or blank unchanged. |
| ParserFacts.CleanupNotIdempotent | fishrambeta/src/parser.rs:666-674 | Cleaning up twice differs from once, since blanks are removed after the replacement: `\cd ot` becomes `\cdot`, which a second cleanup turns into `*`. |
| Lowering.IrToEquationFromSpec | fishrambeta/src/parser.rs:232-255 | Converting parameters succeeds iff each one does, keeping their order one to one. A failure is the first failing parameter's error. |
| Lowering.BinaryLowering | fishrambeta/src/parser.rs:229-299 | A two-parameter operator node converts iff both children do. `+` gives Addition [a, c], `-` gives Addition [a, Negative c], `*` gives Multiplication [a, c], `/` gives Division, and `^` gives Power. |
| Lowering.NaryLowering | fishrambeta/src/parser.rs:256-299 | A `/` or `^` node with three or more parameters converts iff every parameter does. The result is a Multiplication of length n−1: its head is the Division or Power of the first two, followed by the remaining parameters in order. |
| Lowering.ShortLowering | fishrambeta/src/parser.rs:256-299 | A `/` or `^` node with fewer than two parameters always fails. It is the index error of the `remove(0)` on the missing parameter, unless the single parameter fails first. |
| Lowering.CommandLowering | fishrambeta/src/parser.rs:300-314 | A node whose name is not an operator and that has parameters, such as `frac` or `sqrt`, is `Unsupported`, as the `todo!()` is. |
| Lowering.LeafLowering | fishrambeta/src/parser.rs:300-311 | A leaf of digits within i64 is an Integer of their value. Empty or too-large digit text is a parse error. Any other leaf is a Letter of its text. |
| Lowering.NatToStringRoundTrip | fishrambeta/src/parser.rs:325-330 | Reading back the decimal text of a non-negative integer gives the integer. |
| Lowering.RoundTrip | fishrambeta/src/parser.rs:229-372 | Equation → IR → Equation. A non-negative i64 and a letter that is neither digits nor an operator name come back unchanged. A negative integer comes back as the letter of its text, and a digit letter as an integer. PI comes back as the letter `\pi` and E as `e`. A Rational does not come back, and a non-variable has no IR. |
| Lowering.IrToLatexFails | fishrambeta/src/parser.rs:200-228 | `ir_to_latex` never produces text: a leaf reaches the todo!(), and an operator node fails through its first parameter. |
| Lowering.IrToLatexLoop | fishrambeta/src/parser.rs:200-228 | The loop that drains the parameter vector computes `IrToLatex`. |
| Lowering.EquationToLatexFails | fishrambeta/src/parser.rs:20-25 | `equation_to_latex` fails on every equation. |
| LatexToIrFacts.AsWrittenBalanceCheck | fishrambeta/src/parser.rs:9-19 | As written, `latex_to_equation` rejects a text only when its depth difference is exactly −1 (`!x == 0`); every other text is cleaned up and parsed. |
| LatexToIrFacts.UnbalancedTextAccepted | fishrambeta/src/parser.rs:9-19 | As written, `a))` is accepted as the letter `a))`. The corrected check rejects it. |
| LatexToIrFacts.UnbalancedLeafAccepted | fishrambeta/src/parser.rs:9-19 | The same for every plain leaf with depth difference below −1. |
| LatexToIrFacts.BalanceCheck | fishrambeta/src/parser.rs:9-19 | The corrected check rejects exactly the unbalanced texts, and anything it accepts is balanced before and after cleanup. |
| LatexToIrFacts.SumExample | fishrambeta/src/parser.rs:9-59 | `1+2` is the Addition of 1 and 2. |
| LatexToIrFacts.DifferenceExample | fishrambeta/src/parser.rs:229-247 | `a-b` is the Addition of a and the Negative of b. |
| LatexToIrFacts.PowerExample | fishrambeta/src/parser.rs:60-80 | `x^2` is the Power of the letter x and the integer 2. |
| LatexToIrFacts.BinaryExample | fishrambeta/src/parser.rs:34-46 | Any three-character `l+r` or `l-r` of leaf characters is the sum, or the sum with the negation, of the two leaves. |
| LatexToIrFacts.ProductExample | fishrambeta/src/parser.rs:47-59 | Any three-character `l*r` or `l/r` of leaf characters is their Multiplication or Division. |
| LatexToIrFacts.PowerOfLeaves | fishrambeta/src/parser.rs:278-298 | A three-character `l^r` whose base is a letter is the Power of the two leaves. |
| LatexToIrFacts.CdotProduct | fishrambeta/src/parser.rs:666-674 | `a\cdot b` is cleaned up to `a*b` and parsed as the product of the two leaves. |
| LatexToIrFacts.CdotExample | fishrambeta/src/parser.rs:666-674 | `2\cdot x` is the product of 2 and x. |

## Left out

- `calculate_exact` and `multiply_by` (`calculate_exact.rs` and `multiply_by.rs`) are not part of this model. They are parameters with no contract, so nothing is proved about how they fold numbers or multiply.
- `simplify` termination is not proved. The model carries fuel, so it also does not capture an infinite recursion in the source. `SimplifyFacts.SumOfOneNeedsExactFolding` shows that such a recursion exists unless `calculate_exact` folds constant sums.
- The integer widths of the simplifier are not modelled:
  - `-integer` on `i64::MIN` and the negation in the Rational case;
  - the i64 counts of `simplify_multiplication`.
  Values are unbounded integers.
- `Rationals.NewRat`: the overflow of `num_rational` on i64 values near the limits is not modelled.
- `char::is_numeric` and `char::is_alphabetic` are approximated by ASCII digits and letters. Unicode digits and letters are outside the model.
- `println!` diagnostics (`fishrambeta/src/parser.rs:104-105,450`) are output only and are left out.
- `get_super_and_subscript` is modelled only through its outcome. It is reached only from the `\int` branch, which ends in `todo!()`, so `LatexParser.IntegralError` gives the index error or `Unsupported` that the source reaches.
- `remove_factor`'s panic is the `NotAFactor` failure of `Factors.RemoveFactor`. The total removal `Factors.Remove` requires `has_factor`.
- `Lowering.EquationToLatexFails` states only that the result is a failure, not which error each equation reaches.
- The multi-power split of `latex_to_ir` is modelled as written (indices of the original text applied to the shortened text). Split properties are proved only for a single top-level power.
- `Equation::Subtraction`, which `ir_to_equation` builds but `Equation` does not define, is lowered to `Addition` with negated operands.
- `fishrambeta/src/math/calculate.rs` (floating-point evaluation) is not part of this model. It also references `Equation::Abs`, which the datatype does not define.
- `fishrambeta-wasm/src/lib.rs` (the WebAssembly boundary and the physics-values lookup) is not part of this model.
- `differentiate.rs` and `to_latex.rs` are not part of this model.

## Findings

| source | as written | input that shows it | evidently intended | confidence | as-written member | corrected member |
|---|---|---|---|---|---|---|
| fishrambeta/src/parser.rs:10 | The balance test applies `!` (bitwise NOT on `i32`) to the depth difference before comparing it with 0, so only a depth difference of −1 is rejected. | `a))` (depth difference −2) is accepted and parsed to the letter `a))`. | Reject every text whose depth difference is not 0. | high; not executed | LatexParser.LatexToEquationAsWritten, shown by LatexToIrFacts.UnbalancedTextAccepted | LatexParser.LatexToEquation, proved by LatexToIrFacts.BalanceCheck |
