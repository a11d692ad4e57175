/** The loops of fishrambeta/src/math/simplify.rs as they are written: each method walks
    its vectors and BTreeMaps step by step and is proved to compute the function of
    module Simplifier that the rest of the model uses. A panic in the source (a failed
    simplification, an index past the end) is a `Failure` here. */
module SimplifyLoops {
  import opened Wrappers
  import opened Expressions
  import opened Factors
  import opened TermMap
  import opened Simplifier

  /** simplify_addition: add each simplified addend's unit to its term's vector, then
      emit `Multiplication([term, Addition(units).simplify()]).simplify()` per term. */
  method SimplifyAdditionLoop(addition: seq<Equation>, o: Oracles, fuel: nat) returns (r: Result<Equation>)
    ensures r == SimplifyAddition(addition, o, fuel)
  {
    var terms := GroupAddendsLoop(addition, o, fuel);
    if terms.Failure? {
      return Failure(terms.error);
    }
    var simplifiedAddition := EmitAddendsLoop(terms.value, o, fuel);
    if simplifiedAddition.Failure? {
      return Failure(simplifiedAddition.error);
    }
    return Success(Addition(simplifiedAddition.value));
  }

  /** The first loop of simplify_addition: each addend simplified and filed under its
      term, with its count. */
  method GroupAddendsLoop(addition: seq<Equation>, o: Oracles, fuel: nat) returns (r: Result<TermMap<seq<Equation>>>)
    ensures SimplifyEach(addition, o, fuel).Failure? ==> r == Failure(SimplifyEach(addition, o, fuel).error)
    ensures SimplifyEach(addition, o, fuel).Success? ==> r == Success(GroupAddends(SimplifyEach(addition, o, fuel).value))
  {
    var terms: TermMap<seq<Equation>> := [];
    ghost var ss: seq<Equation> := [];
    for i := 0 to |addition|
      invariant SimplifyEach(addition[..i], o, fuel) == Success(ss)
      invariant terms == GroupAddends(ss)
    {
      assert addition[..i + 1][..i] == addition[..i];
      var simplified := Simplify(addition[i], o, fuel);
      if simplified.Failure? {
        SimplifyEachStops(addition, i + 1, o, fuel);
        return Failure(simplified.error);
      }
      var (term, count) := SplitSign(simplified.value);
      match Get(terms, term) {
        case Some(total) => terms := Insert(terms, term, total + [count]);
        case None => terms := Insert(terms, term, [count]);
      }
      assert (ss + [simplified.value])[..|ss|] == ss;
      ss := ss + [simplified.value];
    }
    assert addition[..|addition|] == addition;
    return Success(terms);
  }

  /** The second loop of simplify_addition: each term times its simplified count. */
  method EmitAddendsLoop(terms: TermMap<seq<Equation>>, o: Oracles, fuel: nat) returns (r: Result<seq<Equation>>)
    ensures r == EmitAddends(terms, o, fuel)
  {
    var simplifiedAddition: seq<Equation> := [];
    for j := 0 to |terms|
      invariant EmitAddends(terms[..j], o, fuel) == Success(simplifiedAddition)
    {
      assert terms[..j + 1][..j] == terms[..j];
      var count := Simplify(Addition(terms[j].1), o, fuel);
      if count.Failure? {
        EmitAddendsStops(terms, j + 1, o, fuel);
        return Failure(count.error);
      }
      var nextTerm := Simplify(Multiplication([terms[j].0, count.value]), o, fuel);
      if nextTerm.Failure? {
        EmitAddendsStops(terms, j + 1, o, fuel);
        return Failure(nextTerm.error);
      }
      simplifiedAddition := simplifiedAddition + [nextTerm.value];
    }
    assert terms[..|terms|] == terms;
    return Success(simplifiedAddition);
  }


  /** simplify_multiplication: return 0 at the first factor that simplifies to 0, skip
      the 1s, flip the sign for each negation, count the rest; then emit each counted
      factor (as a simplified power when counted more than once) and combine them. */
  method SimplifyMultiplicationLoop(multiplication: seq<Equation>, o: Oracles, fuel: nat) returns (r: Result<Equation>)
    ensures r == SimplifyMultiplication(multiplication, o, fuel)
  {
    var scan, terms, negative := CountFactors(multiplication, o, fuel);
    if scan.Failure? {
      return Failure(scan.error);
    }
    if scan.value.HitZero? {
      return Success(Zero);
    }
    var simplifiedMultiplication := EmitFactorsLoop(terms, o, fuel);
    if simplifiedMultiplication.Failure? {
      return Failure(simplifiedMultiplication.error);
    }
    var fs := simplifiedMultiplication.value;
    if |fs| == 1 {
      return Success(ApplySign(negative, fs[0]));
    }
    if |fs| == 0 {
      return Failure(IndexOutOfBounds);
    }
    var more := o.multiplyBy(Multiplication(fs[1..]), fs[0]);
    if negative {
      return Success(Negative(more));
    }
    return Success(more);
  }

  /** The first loop of simplify_multiplication, reporting a factor that simplified to
      0 (where the source returns at once) through the scan outcome. */
  method CountFactors(multiplication: seq<Equation>, o: Oracles, fuel: nat)
    returns (scan: Result<FactorScan>, terms: TermMap<int>, negative: bool)
    ensures scan == ScanFactors(multiplication, o, fuel)
    ensures scan.Success? && scan.value.Simplified? ==> (terms, negative) == Tally(scan.value.factors)
  {
    terms, negative := [], false;
    var ss: seq<Equation> := [];
    for i := 0 to |multiplication|
      invariant ScanFactors(multiplication[..i], o, fuel) == Success(Simplified(ss))
      invariant terms == Tally(ss).0 && negative == Tally(ss).1
    {
      ScanFactorsStep(multiplication, i, o, fuel);
      var s := Simplify(multiplication[i], o, fuel);
      if s.Failure? {
        ScanFactorsStops(multiplication, i + 1, o, fuel);
        return Failure(s.error), terms, negative;
      }
      var simplified := s.value;
      if simplified == Zero {
        ScanFactorsStops(multiplication, i + 1, o, fuel);
        return Success(HitZero), terms, negative;
      }
      TallyAppend(ss, simplified);
      terms, negative := CountFactor(terms, negative, simplified);
      ss := ss + [simplified];
    }
    assert multiplication[..|multiplication|] == multiplication;
    scan := Success(Simplified(ss));
  }

  /** One more factor in the tally. */
  /** The body of simplify_multiplication's first loop for a factor other than 0: a 1
      is skipped, a negation flips the sign and counts what it negates. */
  method CountFactor(terms0: TermMap<int>, negative0: bool, simplified0: Equation)
    returns (terms: TermMap<int>, negative: bool)
    ensures (terms, negative) == Counted(terms0, negative0, simplified0)
  {
    terms, negative := terms0, negative0;
    var simplified := simplified0;
    if simplified != One {
      if simplified.Negative? {
        negative := !negative;
        simplified := simplified.operand;
      }
      terms := Insert(terms, simplified, Get(terms, simplified).GetOr(0) + 1);
    }
  }

  /** What one more simplified factor does to the tally. */
  function Counted(m: TermMap<int>, negative: bool, s: Equation): (TermMap<int>, bool) {
    if s == One then (m, negative)
    else if s.Negative? then (Insert(m, s.operand, Get(m, s.operand).GetOr(0) + 1), !negative)
    else (Insert(m, s, Get(m, s).GetOr(0) + 1), negative)
  }

  lemma {:induction false} TallyAppend(ss: seq<Equation>, s: Equation)
    ensures Tally(ss + [s]) == Counted(Tally(ss).0, Tally(ss).1, s)
  {
    assert (ss + [s])[..|ss|] == ss;
  }

  /** The second loop of simplify_multiplication. */
  method EmitFactorsLoop(terms: TermMap<int>, o: Oracles, fuel: nat) returns (r: Result<seq<Equation>>)
    ensures r == EmitFactors(terms, o, fuel)
  {
    var simplifiedMultiplication: seq<Equation> := [];
    for j := 0 to |terms|
      invariant EmitFactors(terms[..j], o, fuel) == Success(simplifiedMultiplication)
    {
      assert terms[..j + 1][..j] == terms[..j];
      var (equation, count) := terms[j];
      if count == 1 {
        simplifiedMultiplication := simplifiedMultiplication + [equation];
      } else {
        var power := Simplify(Power(equation, Var(Integer(count))), o, fuel);
        if power.Failure? {
          EmitFactorsStops(terms, j + 1, o, fuel);
          return Failure(power.error);
        }
        simplifiedMultiplication := simplifiedMultiplication + [power.value];
      }
    }
    assert terms[..|terms|] == terms;
    return Success(simplifiedMultiplication);
  }

  /** The Multiplication arm of simplify_power: raise each factor to the exponent. */
  method DistributePower(terms: seq<Equation>, exponent: Equation) returns (simplifiedPower: seq<Equation>)
    ensures simplifiedPower == PowerEach(terms, exponent)
  {
    simplifiedPower := [];
    for i := 0 to |terms|
      invariant |simplifiedPower| == i
      invariant forall k :: 0 <= k < i ==> simplifiedPower[k] == Power(terms[k], exponent)
    {
      simplifiedPower := simplifiedPower + [Power(terms[i], exponent)];
    }
  }

  /** simplify_division: simplify both sides, cancel each shared factor that both sides
      still have, simplify again, then decide. */
  /** The cancelling loop of simplify_division: each factor the two sides share is
      removed from both while both still have it. */
  method CancelSharedFactors(n: Equation, d: Equation) returns (numerator: Equation, denominator: Equation)
    ensures (numerator, denominator) == CancelFactors(n, d, SharedFactors(d, n))
  {
    numerator, denominator := n, d;
    var shared := ComputeSharedFactors(d, n);
    for i := 0 to |shared|
      invariant (numerator, denominator) == CancelFactors(n, d, shared[..i])
    {
      assert shared[..i + 1][..i] == shared[..i];
      if HasFactor(numerator, shared[i]) && HasFactor(denominator, shared[i]) {
        numerator := Remove(numerator, shared[i]);
        denominator := Remove(denominator, shared[i]);
      }
    }
    assert shared[..|shared|] == shared;
  }

  method SimplifyDivisionLoop(num: Equation, den: Equation, o: Oracles, fuel: nat) returns (r: Result<Equation>)
    ensures r == SimplifyDivision(num, den, o, fuel)
  {
    var n := Simplify(num, o, fuel);
    if n.Failure? {
      return Failure(n.error);
    }
    var d := Simplify(den, o, fuel);
    if d.Failure? {
      return Failure(d.error);
    }
    r := CancelAndDivideSteps(n.value, d.value, o, fuel);
  }

  /** One more factor of the scan. */
  lemma {:induction false} ScanFactorsStep(xs: seq<Equation>, i: nat, o: Oracles, fuel: nat)
    requires i < |xs|
    ensures ScanFactors(xs[..i + 1], o, fuel) ==
      match ScanFactors(xs[..i], o, fuel)
      case Failure(e) => Failure(e)
      case Success(HitZero) => Success(HitZero)
      case Success(Simplified(ss)) =>
        match Simplify(xs[i], o, fuel)
        case Failure(e) => Failure(e)
        case Success(v) => if v == Zero then Success(HitZero) else Success(Simplified(ss + [v]))
  {
    assert xs[..i + 1][..i] == xs[..i];
  }

  /** simplify_division after both sides are simplified. */
  method CancelAndDivideSteps(n: Equation, d: Equation, o: Oracles, fuel: nat) returns (r: Result<Equation>)
    ensures r == CancelAndDivide(n, d, o, fuel)
  {
    var numerator, denominator := CancelSharedFactors(n, d);
    var n2 := Simplify(numerator, o, fuel);
    if n2.Failure? {
      return Failure(n2.error);
    }
    var d2 := Simplify(denominator, o, fuel);
    if d2.Failure? {
      return Failure(d2.error);
    }
    if n2.value == Zero {
      return Success(Zero);
    } else if d2.value == One {
      return Success(n2.value);
    }
    return Success(Division(n2.value, d2.value));
  }

  // ---------------------------------------------------------------------------
  // An early exit from a loop is the whole walk's outcome.

  lemma {:induction false} SimplifyEachStops(xs: seq<Equation>, i: nat, o: Oracles, fuel: nat)
    requires i <= |xs| && SimplifyEach(xs[..i], o, fuel).Failure?
    ensures SimplifyEach(xs, o, fuel) == SimplifyEach(xs[..i], o, fuel)
    decreases |xs| - i
  {
    if i < |xs| {
      var n := |xs| - 1;
      assert xs[..n][..i] == xs[..i];
      if i < n {
        SimplifyEachStops(xs[..n], i, o, fuel);
      } else {
        assert xs[..n] == xs[..i];
      }
    } else {
      assert xs[..i] == xs;
    }
  }

  lemma {:induction false} EmitAddendsStops(m: TermMap<seq<Equation>>, i: nat, o: Oracles, fuel: nat)
    requires i <= |m| && EmitAddends(m[..i], o, fuel).Failure?
    ensures EmitAddends(m, o, fuel) == EmitAddends(m[..i], o, fuel)
    decreases |m| - i
  {
    if i < |m| {
      var n := |m| - 1;
      assert m[..n][..i] == m[..i];
      if i < n {
        EmitAddendsStops(m[..n], i, o, fuel);
      } else {
        assert m[..n] == m[..i];
      }
    } else {
      assert m[..i] == m;
    }
  }

  lemma {:induction false} ScanFactorsStops(xs: seq<Equation>, i: nat, o: Oracles, fuel: nat)
    requires i <= |xs| && (ScanFactors(xs[..i], o, fuel).Failure? || ScanFactors(xs[..i], o, fuel) == Success(HitZero))
    ensures ScanFactors(xs, o, fuel) == ScanFactors(xs[..i], o, fuel)
    decreases |xs| - i
  {
    if i < |xs| {
      var n := |xs| - 1;
      assert xs[..n][..i] == xs[..i];
      if i < n {
        ScanFactorsStops(xs[..n], i, o, fuel);
      } else {
        assert xs[..n] == xs[..i];
      }
    } else {
      assert xs[..i] == xs;
    }
  }

  lemma {:induction false} EmitFactorsStops(m: TermMap<int>, i: nat, o: Oracles, fuel: nat)
    requires i <= |m| && EmitFactors(m[..i], o, fuel).Failure?
    ensures EmitFactors(m, o, fuel) == EmitFactors(m[..i], o, fuel)
    decreases |m| - i
  {
    if i < |m| {
      var n := |m| - 1;
      assert m[..n][..i] == m[..i];
      if i < n {
        EmitFactorsStops(m[..n], i, o, fuel);
      } else {
        assert m[..n] == m[..i];
      }
    } else {
      assert m[..i] == m;
    }
  }
}
