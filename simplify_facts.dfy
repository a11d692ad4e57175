/** What the simplifier of fishrambeta/src/math/simplify.rs does, stated about the
    model in module Simplifier, for every choice of the two helpers it delegates to. */
module SimplifyFacts {
  import opened Wrappers
  import opened Rationals
  import opened Expressions
  import opened Factors
  import opened TermMap
  import opened Simplifier

  // ---------------------------------------------------------------------------
  // Fuel is only a bound: an outcome that did not run out of fuel is the outcome.

  /** More fuel never changes a result that did not run out of fuel. */
  lemma {:induction false} SimplifyFuel(e: Equation, o: Oracles, f: nat, g: nat)
    requires f <= g && Simplify(e, o, f) != Failure(OutOfFuel)
    ensures Simplify(e, o, g) == Simplify(e, o, f)
    decreases f, 0, 0
  {
    if o.calculateExact(e).None? {
      SimplifyNodeFuel(e, o, f - 1, g - 1);
    }
  }

  lemma {:induction false} SimplifyNodeFuel(e: Equation, o: Oracles, f: nat, g: nat)
    requires f <= g && SimplifyNode(e, o, f) != Failure(OutOfFuel)
    ensures SimplifyNode(e, o, g) == SimplifyNode(e, o, f)
    decreases f, 3, 0
  {
    match e
    case Var(_) =>
    case Negative(x) => SimplifyNegativeFuel(x, o, f, g);
    case Addition(xs) => SimplifyAdditionFuel(xs, o, f, g);
    case Multiplication(xs) => SimplifyMultiplicationFuel(xs, o, f, g);
    case Division(n, d) => SimplifyDivisionFuel(n, d, o, f, g);
    case Power(b, x) => SimplifyPowerFuel(b, x, o, f, g);
    case Ln(x) => SimplifyFuel(x, o, f, g);
    case Sin(x) => SimplifyFuel(x, o, f, g);
    case Cos(x) => SimplifyFuel(x, o, f, g);
    case Equals(l, r) =>
      SimplifyFuel(l, o, f, g);
      if Simplify(l, o, f).Success? {
        SimplifyFuel(r, o, f, g);
      }
  }

  lemma {:induction false} SimplifyNegativeFuel(x: Equation, o: Oracles, f: nat, g: nat)
    requires f <= g && SimplifyNegative(x, o, f) != Failure(OutOfFuel)
    ensures SimplifyNegative(x, o, g) == SimplifyNegative(x, o, f)
    decreases f, 2, 0
  {
    match x
    case Negative(y) => SimplifyFuel(y, o, f, g);
    case Var(v) =>
      if !v.Integer? && !v.Rational? {
        SimplifyFuel(x, o, f, g);
      }
    case _ => SimplifyFuel(x, o, f, g);
  }

  lemma {:induction false} SimplifyEachFuel(xs: seq<Equation>, o: Oracles, f: nat, g: nat)
    requires f <= g && SimplifyEach(xs, o, f) != Failure(OutOfFuel)
    ensures SimplifyEach(xs, o, g) == SimplifyEach(xs, o, f)
    decreases f, 1, |xs|
  {
    if xs != [] {
      SimplifyEachFuel(xs[..|xs| - 1], o, f, g);
      if SimplifyEach(xs[..|xs| - 1], o, f).Success? {
        SimplifyFuel(xs[|xs| - 1], o, f, g);
      }
    }
  }

  lemma {:induction false} EmitAddendFuel(term: Equation, units: seq<Equation>, o: Oracles, f: nat, g: nat)
    requires f <= g && EmitAddend(term, units, o, f) != Failure(OutOfFuel)
    ensures EmitAddend(term, units, o, g) == EmitAddend(term, units, o, f)
    decreases f, 1, 0
  {
    SimplifyFuel(Addition(units), o, f, g);
    var count := Simplify(Addition(units), o, f);
    if count.Success? {
      SimplifyFuel(Multiplication([term, count.value]), o, f, g);
    }
  }

  lemma {:induction false} EmitAddendsFuel(m: TermMap<seq<Equation>>, o: Oracles, f: nat, g: nat)
    requires f <= g && EmitAddends(m, o, f) != Failure(OutOfFuel)
    ensures EmitAddends(m, o, g) == EmitAddends(m, o, f)
    decreases f, 1, |m|
  {
    if m != [] {
      EmitAddendsFuel(m[..|m| - 1], o, f, g);
      if EmitAddends(m[..|m| - 1], o, f).Success? {
        EmitAddendFuel(m[|m| - 1].0, m[|m| - 1].1, o, f, g);
      }
    }
  }

  lemma {:induction false} SimplifyAdditionFuel(xs: seq<Equation>, o: Oracles, f: nat, g: nat)
    requires f <= g && SimplifyAddition(xs, o, f) != Failure(OutOfFuel)
    ensures SimplifyAddition(xs, o, g) == SimplifyAddition(xs, o, f)
    decreases f, 2, 0
  {
    SimplifyEachFuel(xs, o, f, g);
    var ss := SimplifyEach(xs, o, f);
    if ss.Success? {
      EmitAddendsFuel(GroupAddends(ss.value), o, f, g);
    }
  }

  lemma {:induction false} ScanFactorsFuel(xs: seq<Equation>, o: Oracles, f: nat, g: nat)
    requires f <= g && ScanFactors(xs, o, f) != Failure(OutOfFuel)
    ensures ScanFactors(xs, o, g) == ScanFactors(xs, o, f)
    decreases f, 1, |xs|
  {
    if xs != [] {
      ScanFactorsFuel(xs[..|xs| - 1], o, f, g);
      var init := ScanFactors(xs[..|xs| - 1], o, f);
      if init.Success? && init.value.Simplified? {
        SimplifyFuel(xs[|xs| - 1], o, f, g);
      }
    }
  }

  lemma {:induction false} EmitFactorsFuel(m: TermMap<int>, o: Oracles, f: nat, g: nat)
    requires f <= g && EmitFactors(m, o, f) != Failure(OutOfFuel)
    ensures EmitFactors(m, o, g) == EmitFactors(m, o, f)
    decreases f, 1, |m|
  {
    if m != [] {
      EmitFactorsFuel(m[..|m| - 1], o, f, g);
      var (e, count) := m[|m| - 1];
      if EmitFactors(m[..|m| - 1], o, f).Success? && count != 1 {
        SimplifyFuel(Power(e, Var(Integer(count))), o, f, g);
      }
    }
  }

  lemma {:induction false} SimplifyMultiplicationFuel(xs: seq<Equation>, o: Oracles, f: nat, g: nat)
    requires f <= g && SimplifyMultiplication(xs, o, f) != Failure(OutOfFuel)
    ensures SimplifyMultiplication(xs, o, g) == SimplifyMultiplication(xs, o, f)
    decreases f, 2, 1
  {
    ScanFactorsFuel(xs, o, f, g);
    var scan := ScanFactors(xs, o, f);
    if scan.Success? && scan.value.Simplified? {
      MultiplyOutFuel(scan.value.factors, o, f, g);
    }
  }

  lemma {:induction false} MultiplyOutFuel(ss: seq<Equation>, o: Oracles, f: nat, g: nat)
    requires f <= g && MultiplyOut(ss, o, f) != Failure(OutOfFuel)
    ensures MultiplyOut(ss, o, g) == MultiplyOut(ss, o, f)
    decreases f, 2, 0
  {
    EmitFactorsFuel(Tally(ss).0, o, f, g);
  }

  lemma {:induction false} SimplifyPowerFuel(b: Equation, x: Equation, o: Oracles, f: nat, g: nat)
    requires f <= g && SimplifyPower(b, x, o, f) != Failure(OutOfFuel)
    ensures SimplifyPower(b, x, o, g) == SimplifyPower(b, x, o, f)
    decreases f, 2, 0
  {
    SimplifyFuel(b, o, f, g);
    if Simplify(b, o, f).Success? {
      SimplifyPowerFuelAfterBase(b, x, o, f, g);
    }
  }

  /** The same, once the base has simplified. */
  lemma {:induction false} SimplifyPowerFuelAfterBase(b: Equation, x: Equation, o: Oracles, f: nat, g: nat)
    requires f <= g && SimplifyPower(b, x, o, f) != Failure(OutOfFuel)
    requires Simplify(b, o, f).Success? && Simplify(b, o, g) == Simplify(b, o, f)
    ensures SimplifyPower(b, x, o, g) == SimplifyPower(b, x, o, f)
    decreases f, 1, 0
  {
    SimplifyFuel(x, o, f, g);
    var base := Simplify(b, o, f).value;
    var exponent := Simplify(x, o, f);
    if exponent.Success? && exponent.value != One && base.Power? && SameNumericKind(exponent.value, base.exponent) {
      SimplifyPowerFuelMerged(b, x, o, f, g);
    }
  }

  /** The same, when the power of a power is simplified again with merged exponents. */
  lemma {:induction false} SimplifyPowerFuelMerged(b: Equation, x: Equation, o: Oracles, f: nat, g: nat)
    requires f <= g && SimplifyPower(b, x, o, f) != Failure(OutOfFuel)
    requires Simplify(b, o, f).Success? && Simplify(b, o, g) == Simplify(b, o, f)
    requires Simplify(x, o, f).Success? && Simplify(x, o, g) == Simplify(x, o, f)
    requires Simplify(x, o, f).value != One && Simplify(b, o, f).value.Power?
    requires SameNumericKind(Simplify(x, o, f).value, Simplify(b, o, f).value.exponent)
    ensures SimplifyPower(b, x, o, g) == SimplifyPower(b, x, o, f)
    decreases f, 0, 1
  {
    var base := Simplify(b, o, f).value;
    var merged := Power(base.base, Multiplication([Simplify(x, o, f).value, base.exponent]));
    assert SimplifyPower(b, x, o, f) == Simplify(merged, o, f);
    SimplifyFuel(merged, o, f, g);
  }


  lemma {:induction false} SimplifyDivisionFuel(num: Equation, den: Equation, o: Oracles, f: nat, g: nat)
    requires f <= g && SimplifyDivision(num, den, o, f) != Failure(OutOfFuel)
    ensures SimplifyDivision(num, den, o, g) == SimplifyDivision(num, den, o, f)
    decreases f, 2, 0
  {
    SimplifyFuel(num, o, f, g);
    var n := Simplify(num, o, f);
    if n.Success? {
      SimplifyFuel(den, o, f, g);
      var d := Simplify(den, o, f);
      if d.Success? {
        CancelAndDivideFuel(n.value, d.value, o, f, g);
      }
    }
  }

  lemma {:induction false} CancelAndDivideFuel(n: Equation, d: Equation, o: Oracles, f: nat, g: nat)
    requires f <= g && CancelAndDivide(n, d, o, f) != Failure(OutOfFuel)
    ensures CancelAndDivide(n, d, o, g) == CancelAndDivide(n, d, o, f)
    decreases f, 1, 0
  {
    var (n1, d1) := CancelFactors(n, d, SharedFactors(d, n));
    SimplifyFuel(n1, o, f, g);
    if Simplify(n1, o, f).Success? {
      SimplifyFuel(d1, o, f, g);
    }
  }

  // ---------------------------------------------------------------------------
  // The walks over children.

  /** Simplifying a list succeeds exactly when every element simplifies, and then lists
      the results in order; a failing list reports the failure of an element all of
      whose predecessors simplified. */
  lemma {:induction false} SimplifyEachSpec(xs: seq<Equation>, o: Oracles, fuel: nat)
    ensures SimplifyEach(xs, o, fuel).Success? <==>
      forall i :: 0 <= i < |xs| ==> Simplify(xs[i], o, fuel).Success?
    ensures SimplifyEach(xs, o, fuel).Success? ==>
      |SimplifyEach(xs, o, fuel).value| == |xs| &&
      forall i :: 0 <= i < |xs| ==> SimplifyEach(xs, o, fuel).value[i] == Simplify(xs[i], o, fuel).value
    ensures SimplifyEach(xs, o, fuel).Failure? ==>
      exists i :: 0 <= i < |xs| && Simplify(xs[i], o, fuel) == Failure(SimplifyEach(xs, o, fuel).error) &&
        forall j :: 0 <= j < i ==> Simplify(xs[j], o, fuel).Success?
  {
    if xs != [] {
      var n := |xs| - 1;
      var init := xs[..n];
      SimplifyEachSpec(init, o, fuel);
      assert forall i :: 0 <= i < n ==> init[i] == xs[i];
      var r := SimplifyEach(xs, o, fuel);
      if SimplifyEach(init, o, fuel).Failure? {
        var i :| 0 <= i < n && Simplify(init[i], o, fuel) == Failure(SimplifyEach(init, o, fuel).error) &&
          forall j :: 0 <= j < i ==> Simplify(init[j], o, fuel).Success?;
        assert Simplify(xs[i], o, fuel) == Failure(r.error);
      } else if Simplify(xs[n], o, fuel).Failure? {
        assert Simplify(xs[n], o, fuel) == Failure(r.error);
      }
    }
  }

  /** A product with a factor that simplifies to 0 stops there: the scan reports zero
      once every factor before it has simplified. */
  lemma {:induction false} ScanFactorsZero(xs: seq<Equation>, o: Oracles, fuel: nat, i: nat)
    requires i < |xs| && Simplify(xs[i], o, fuel) == Success(Zero)
    requires forall j :: 0 <= j < i ==> Simplify(xs[j], o, fuel).Success?
    ensures ScanFactors(xs, o, fuel) == Success(HitZero)
  {
    var n := |xs| - 1;
    var init := xs[..n];
    assert forall j :: 0 <= j < n ==> init[j] == xs[j];
    if i < n {
      ScanFactorsZero(init, o, fuel, i);
    } else {
      ScanFactorsSucceeds(init, o, fuel);
    }
  }

  /** The scan of factors that all simplify cannot fail. */
  lemma {:induction false} ScanFactorsSucceeds(xs: seq<Equation>, o: Oracles, fuel: nat)
    requires forall j :: 0 <= j < |xs| ==> Simplify(xs[j], o, fuel).Success?
    ensures ScanFactors(xs, o, fuel).Success?
    ensures (forall j :: 0 <= j < |xs| ==> Simplify(xs[j], o, fuel).value != Zero) ==>
      ScanFactors(xs, o, fuel).value.Simplified?
  {
    if xs != [] {
      var init := xs[..|xs| - 1];
      assert forall j :: 0 <= j < |init| ==> init[j] == xs[j];
      ScanFactorsSucceeds(init, o, fuel);
    }
  }

  /** A scan that found no zero lists every factor's simplification, none of them 0. */
  lemma {:induction false} ScanFactorsSimplified(xs: seq<Equation>, o: Oracles, fuel: nat)
    requires ScanFactors(xs, o, fuel).Success? && ScanFactors(xs, o, fuel).value.Simplified?
    ensures var ss := ScanFactors(xs, o, fuel).value.factors;
      |ss| == |xs| && forall i :: 0 <= i < |xs| ==> Simplify(xs[i], o, fuel) == Success(ss[i]) && ss[i] != Zero
  {
    if xs != [] {
      var init := xs[..|xs| - 1];
      assert forall j :: 0 <= j < |init| ==> init[j] == xs[j];
      ScanFactorsSimplified(init, o, fuel);
    }
  }

  /** The second loop of simplify_addition emits one simplified term per map entry. */
  lemma {:induction false} EmitAddendsSpec(m: TermMap<seq<Equation>>, o: Oracles, fuel: nat)
    requires EmitAddends(m, o, fuel).Success?
    ensures |EmitAddends(m, o, fuel).value| == |m|
    ensures forall i :: 0 <= i < |m| ==> EmitAddend(m[i].0, m[i].1, o, fuel) == Success(EmitAddends(m, o, fuel).value[i])
  {
    if m != [] {
      var init := m[..|m| - 1];
      assert forall j :: 0 <= j < |init| ==> init[j] == m[j];
      EmitAddendsSpec(init, o, fuel);
    }
  }

  /** The second loop of simplify_multiplication emits one factor per map entry: the
      term itself when it occurred once, its simplified power otherwise. */
  lemma {:induction false} EmitFactorsSpec(m: TermMap<int>, o: Oracles, fuel: nat)
    requires EmitFactors(m, o, fuel).Success?
    ensures |EmitFactors(m, o, fuel).value| == |m|
    ensures forall i :: 0 <= i < |m| && m[i].1 == 1 ==> EmitFactors(m, o, fuel).value[i] == m[i].0
    ensures forall i :: 0 <= i < |m| && m[i].1 != 1 ==>
      Simplify(Power(m[i].0, Var(Integer(m[i].1))), o, fuel) == Success(EmitFactors(m, o, fuel).value[i])
  {
    if m != [] {
      var init := m[..|m| - 1];
      assert forall j :: 0 <= j < |init| ==> init[j] == m[j];
      EmitFactorsSpec(init, o, fuel);
    }
  }

  // ---------------------------------------------------------------------------
  // Addition: like terms are merged.

  /** The units (1 for a plain addend, -1 for a negated one) of the addends whose
      term, after stripping a Negative, is k, in the order they occur. */
  function UnitsOf(ss: seq<Equation>, k: Equation): seq<Equation> {
    if ss == [] then []
    else
      UnitsOf(ss[..|ss| - 1], k) +
      (if SplitSign(ss[|ss| - 1]).0 == k then [SplitSign(ss[|ss| - 1]).1] else [])
  }

  /** The distinct terms of the simplified addends. */
  function TermsOf(ss: seq<Equation>): set<Equation> {
    set i | 0 <= i < |ss| :: SplitSign(ss[i]).0
  }

  /** The map simplify_addition builds binds each term to the units of all its
      occurrences, binds nothing else, and iterates its terms in ascending order. */
  lemma {:induction false} GroupAddendsSpec(ss: seq<Equation>)
    ensures Sorted(GroupAddends(ss))
    ensures forall k :: Get(GroupAddends(ss), k) == if UnitsOf(ss, k) == [] then None else Some(UnitsOf(ss, k))
  {
    if ss != [] {
      var init := ss[..|ss| - 1];
      GroupAddendsSpec(init);
      var m := GroupAddends(init);
      var (term, unit) := SplitSign(ss[|ss| - 1]);
      var units := Get(m, term).GetOr([]) + [unit];
      assert GroupAddends(ss) == Insert(m, term, units) by {
        if Get(m, term).None? {
          assert units == [unit];
        }
      }
      InsertFacts(m, term, units);
      forall k ensures Get(GroupAddends(ss), k) == if UnitsOf(ss, k) == [] then None else Some(UnitsOf(ss, k)) {
        assert UnitsOf(ss, k) == UnitsOf(init, k) + (if term == k then [unit] else []);
        if k == term {
          assert UnitsOf(ss, k) == units;
        } else {
          assert UnitsOf(ss, k) == UnitsOf(init, k);
        }
      }
    }
  }

  /** Every unit collected is 1 or -1, and a term occurs exactly when it has units. */
  lemma {:induction false} UnitsOfSpec(ss: seq<Equation>, k: Equation)
    ensures forall i :: 0 <= i < |UnitsOf(ss, k)| ==>
      UnitsOf(ss, k)[i] == One || UnitsOf(ss, k)[i] == Var(Integer(-1))
    ensures UnitsOf(ss, k) != [] <==> k in TermsOf(ss)
  {
    if ss != [] {
      var init := ss[..|ss| - 1];
      UnitsOfSpec(init, k);
      assert TermsOf(ss) == TermsOf(init) + {SplitSign(ss[|ss| - 1]).0} by {
        forall x | x in TermsOf(ss) ensures x in TermsOf(init) + {SplitSign(ss[|ss| - 1]).0} {
          var i :| 0 <= i < |ss| && SplitSign(ss[i]).0 == x;
          if i < |ss| - 1 { assert init[i] == ss[i]; }
        }
        forall x | x in TermsOf(init) ensures x in TermsOf(ss) {
          var i :| 0 <= i < |init| && SplitSign(init[i]).0 == x;
          assert ss[i] == init[i];
        }
      }
    }
  }

  /** A sorted map has as many entries as distinct keys. */
  lemma {:induction false} SortedKeyCount<V>(m: TermMap<V>)
    requires Sorted(m)
    ensures |Keys(m)| == |m|
  {
    if m != [] {
      KeysCons(m);
      TailSorted(m);
      HeadNotInTail(m);
      SortedKeyCount(m[1..]);
    }
  }

  /** The map's terms are the distinct terms of the addends, one entry each. */
  lemma {:induction false} GroupAddendsKeys(ss: seq<Equation>)
    ensures Keys(GroupAddends(ss)) == TermsOf(ss)
    ensures |GroupAddends(ss)| == |TermsOf(ss)|
  {
    var m := GroupAddends(ss);
    GroupAddendsSpec(ss);
    SortedKeyCount(m);
    forall k ensures k in Keys(m) <==> k in TermsOf(ss) {
      GetFacts(m, k);
      UnitsOfSpec(ss, k);
    }
  }

  /** A list whose elements simplify to ss simplifies to ss. */
  lemma {:induction false} SimplifyEachIs(xs: seq<Equation>, ss: seq<Equation>, o: Oracles, fuel: nat)
    requires |ss| == |xs| && forall i :: 0 <= i < |xs| ==> Simplify(xs[i], o, fuel) == Success(ss[i])
    ensures SimplifyEach(xs, o, fuel) == Success(ss)
  {
    if xs != [] {
      var n := |xs| - 1;
      assert forall i :: 0 <= i < n ==> xs[..n][i] == xs[i] && ss[..n][i] == ss[i];
      SimplifyEachIs(xs[..n], ss[..n], o, fuel);
      assert ss == ss[..n] + [ss[n]];
    }
  }

  /** simplify_addition emits, in its map's order, one term per distinct addend. */
  lemma {:induction false} AdditionEmits(xs: seq<Equation>, ss: seq<Equation>, o: Oracles, fuel: nat, r: Equation)
    requires SimplifyEach(xs, o, fuel) == Success(ss) && SimplifyAddition(xs, o, fuel) == Success(r)
    ensures r.Addition? && EmitAddends(GroupAddends(ss), o, fuel) == Success(r.addends)
  {
  }

  lemma {:induction false} MultiplicationUnfolds(xs: seq<Equation>, o: Oracles, fuel: nat)
    requires fuel > 0 && o.calculateExact(Multiplication(xs)) == None
    ensures Simplify(Multiplication(xs), o, fuel) == SimplifyMultiplication(xs, o, fuel - 1)
  {
  }

  lemma {:induction false} AdditionUnfolds(xs: seq<Equation>, o: Oracles, fuel: nat)
    requires fuel > 0 && o.calculateExact(Addition(xs)) == None
    ensures Simplify(Addition(xs), o, fuel) == SimplifyAddition(xs, o, fuel - 1)
  {
  }

  /** simplify_addition merges like terms: when every addend simplifies, the result is
      a sum with exactly one addend per distinct term (a negated addend counts towards
      the term it negates), taken in ascending term order, each addend being
      `Multiplication([term, Addition(units).simplify()]).simplify()` for the units of
      that term's occurrences. */
  lemma {:induction false} AdditionMergesLikeTerms(xs: seq<Equation>, o: Oracles, fuel: nat, ss: seq<Equation>, r: Equation)
    requires fuel > 0 && o.calculateExact(Addition(xs)) == None
    requires |ss| == |xs| && forall i :: 0 <= i < |xs| ==> Simplify(xs[i], o, fuel - 1) == Success(ss[i])
    requires Simplify(Addition(xs), o, fuel) == Success(r)
    ensures r.Addition? && |r.addends| == |TermsOf(ss)|
    ensures exists m: TermMap<seq<Equation>> ::
      Sorted(m) && |m| == |r.addends| &&
      (forall k :: Get(m, k) == if UnitsOf(ss, k) == [] then None else Some(UnitsOf(ss, k))) &&
      (forall i :: 0 <= i < |m| ==> EmitAddend(m[i].0, m[i].1, o, fuel - 1) == Success(r.addends[i]))
  {
    assert r.Addition? && EmitAddends(GroupAddends(ss), o, fuel - 1) == Success(r.addends) by {
      AdditionUnfolds(xs, o, fuel);
      SimplifyEachIs(xs, ss, o, fuel - 1);
      AdditionEmits(xs, ss, o, fuel - 1, r);
    }
    var m := GroupedAddends(ss, o, fuel - 1, r.addends);
  }

  /** The addends emitted from the grouped terms, one per distinct term. */
  lemma {:induction false} GroupedAddends(ss: seq<Equation>, o: Oracles, fuel: nat, addends: seq<Equation>) returns (m: TermMap<seq<Equation>>)
    requires EmitAddends(GroupAddends(ss), o, fuel) == Success(addends)
    ensures |addends| == |TermsOf(ss)|
    ensures Sorted(m) && |m| == |addends|
    ensures forall k :: Get(m, k) == if UnitsOf(ss, k) == [] then None else Some(UnitsOf(ss, k))
    ensures forall i :: 0 <= i < |m| ==> EmitAddend(m[i].0, m[i].1, o, fuel) == Success(addends[i])
  {
    m := GroupAddends(ss);
    GroupAddendsSpec(ss);
    GroupAddendsKeys(ss);
    EmitAddendsSpec(m, o, fuel);
  }

  // ---------------------------------------------------------------------------
  // Multiplication: zero absorbs, 1 is dropped, equal factors are counted, signs cancel.

  /** A simplified factor with a leading Negative stripped. */
  function Stripped(s: Equation): Equation {
    if s.Negative? then s.operand else s
  }

  /** How many factors other than the literal 1 are k once a Negative is stripped. */
  function Occurrences(ss: seq<Equation>, k: Equation): nat {
    if ss == [] then 0
    else
      var s := ss[|ss| - 1];
      Occurrences(ss[..|ss| - 1], k) + (if s != One && Stripped(s) == k then 1 else 0)
  }

  /** How many factors are negations. */
  function Negations(ss: seq<Equation>): nat {
    if ss == [] then 0
    else Negations(ss[..|ss| - 1]) + (if ss[|ss| - 1].Negative? then 1 else 0)
  }

  /** The first loop of simplify_multiplication counts each factor (a negation counting
      towards what it negates, the literal 1 not at all), iterates the factors in
      ascending order, and ends negative exactly when an odd number of factors were
      negations. */
  lemma {:induction false} TallySpec(ss: seq<Equation>)
    ensures Sorted(Tally(ss).0)
    ensures forall k :: Get(Tally(ss).0, k) == if Occurrences(ss, k) == 0 then None else Some(Occurrences(ss, k) as int)
    ensures Tally(ss).1 <==> Negations(ss) % 2 == 1
  {
    TallyCounts(ss);
    TallyNegative(ss);
  }

  lemma {:induction false} TallyCounts(ss: seq<Equation>)
    ensures Sorted(Tally(ss).0)
    ensures forall k :: Get(Tally(ss).0, k) == if Occurrences(ss, k) == 0 then None else Some(Occurrences(ss, k) as int)
  {
    if ss != [] {
      var init := ss[..|ss| - 1];
      TallyCounts(init);
      var m := Tally(init).0;
      var s := ss[|ss| - 1];
      if s != One {
        var count := Get(m, Stripped(s)).GetOr(0) + 1;
        assert Tally(ss).0 == Insert(m, Stripped(s), count);
        InsertFacts(m, Stripped(s), count);
        forall k
          ensures Get(Tally(ss).0, k) == if Occurrences(ss, k) == 0 then None else Some(Occurrences(ss, k) as int)
        {
          assert Occurrences(ss, k) == Occurrences(init, k) + (if Stripped(s) == k then 1 else 0);
        }
      } else {
        forall k
          ensures Occurrences(ss, k) == Occurrences(init, k)
        {
        }
      }
    }
  }

  lemma {:induction false} TallyNegative(ss: seq<Equation>)
    ensures Tally(ss).1 <==> Negations(ss) % 2 == 1
  {
    if ss != [] {
      var init := ss[..|ss| - 1];
      TallyNegative(init);
      var s := ss[|ss| - 1];
      var n := Negations(init);
      assert Negations(ss) == n + (if s.Negative? then 1 else 0);
      if s != One && s.Negative? {
        assert Tally(ss).1 == !Tally(init).1;
        assert (n + 1) % 2 == 1 <==> n % 2 != 1;
      } else {
        assert Tally(ss).1 == Tally(init).1;
      }
    }
  }



  /** The map a product builds has exactly the distinct stripped factors other than 1. */
  lemma {:induction false} TallyKeys(ss: seq<Equation>, k: Equation)
    ensures k in Keys(Tally(ss).0) <==> Occurrences(ss, k) > 0
  {
    TallySpec(ss);
    GetFacts(Tally(ss).0, k);
  }

  /** Once the factors before it have simplified, a factor that simplifies to 0 makes
      the whole product 0, whatever the factors after it are. */
  lemma {:induction false} MultiplicationByZero(xs: seq<Equation>, o: Oracles, fuel: nat, i: nat)
    requires fuel > 0 && o.calculateExact(Multiplication(xs)) == None
    requires i < |xs| && Simplify(xs[i], o, fuel - 1) == Success(Zero)
    requires forall j :: 0 <= j < i ==> Simplify(xs[j], o, fuel - 1).Success?
    ensures Simplify(Multiplication(xs), o, fuel) == Success(Zero)
  {
    MultiplicationUnfolds(xs, o, fuel);
    ScanFactorsZero(xs, o, fuel - 1, i);
  }

  /** Factors that simplify to ss, none of them 0, are scanned to ss. */
  lemma {:induction false} ScanFactorsIs(xs: seq<Equation>, ss: seq<Equation>, o: Oracles, fuel: nat)
    requires |ss| == |xs| && forall i :: 0 <= i < |xs| ==> Simplify(xs[i], o, fuel) == Success(ss[i]) && ss[i] != Zero
    ensures ScanFactors(xs, o, fuel) == Success(Simplified(ss))
  {
    if xs != [] {
      var n := |xs| - 1;
      assert forall i :: 0 <= i < n ==> xs[..n][i] == xs[i] && ss[..n][i] == ss[i];
      ScanFactorsIs(xs[..n], ss[..n], o, fuel);
      assert ss == ss[..n] + [ss[n]];
    }
  }

  lemma {:induction false} OnlyOnes(ss: seq<Equation>, k: Equation)
    requires forall i :: 0 <= i < |ss| ==> ss[i] == One
    ensures Occurrences(ss, k) == 0
  {
    if ss != [] {
      OnlyOnes(ss[..|ss| - 1], k);
    }
  }

  /** Factors that are all 1 leave nothing to multiply. */
  lemma {:induction false} MultiplyOutOfOnes(ss: seq<Equation>, o: Oracles, fuel: nat)
    requires forall i :: 0 <= i < |ss| ==> ss[i] == One
    ensures MultiplyOut(ss, o, fuel) == Failure(IndexOutOfBounds)
  {
    var m := Tally(ss).0;
    if m != [] {
      KeysCons(m);
      TallyKeys(ss, m[0].0);
      OnlyOnes(ss, m[0].0);
    }
  }

  /** A product whose factors all simplify to 1 leaves nothing to multiply, and the
      source then indexes an empty vector. */
  lemma {:induction false} MultiplicationOfOnes(xs: seq<Equation>, o: Oracles, fuel: nat)
    requires fuel > 0 && o.calculateExact(Multiplication(xs)) == None
    requires forall i :: 0 <= i < |xs| ==> Simplify(xs[i], o, fuel - 1) == Success(One)
    ensures Simplify(Multiplication(xs), o, fuel) == Failure(IndexOutOfBounds)
  {
    MultiplicationUnfolds(xs, o, fuel);
    ScanFactorsSucceeds(xs, o, fuel - 1);
    ScanFactorsSimplified(xs, o, fuel - 1);
    var ss := ScanFactors(xs, o, fuel - 1).value.factors;
    assert SimplifyMultiplication(xs, o, fuel - 1) == MultiplyOut(ss, o, fuel - 1);
    MultiplyOutOfOnes(ss, o, fuel - 1);
  }

  lemma {:induction false} EmitSingle(k: Equation, o: Oracles, fuel: nat)
    ensures EmitFactors([(k, 1)], o, fuel) == Success([k])
  {
    var single: TermMap<int> := [(k, 1)];
    assert single[..0] == [];
    assert [] + [k] == [k];
  }

  /** One factor other than 1, occurring once, is the product. */
  lemma {:induction false} MultiplyOutSingle(ss: seq<Equation>, o: Oracles, fuel: nat, k: Equation)
    requires Occurrences(ss, k) == 1 && forall k' :: k' != k ==> Occurrences(ss, k') == 0
    ensures MultiplyOut(ss, o, fuel) == Success(ApplySign(Negations(ss) % 2 == 1, k))
  {
    TallySpec(ss);
    var m := Tally(ss).0;
    var single: TermMap<int> := [(k, 1)];
    assert forall k' :: Get(m, k') == Get(single, k');
    SortedUnique(m, single);
    EmitSingle(k, o, fuel);
  }

  /** A product with a single factor other than 1, occurring once, simplifies to that
      factor, negated when an odd number of factors were negations. */
  lemma {:induction false} MultiplicationSingleFactor(xs: seq<Equation>, o: Oracles, fuel: nat, ss: seq<Equation>, k: Equation)
    requires fuel > 0 && o.calculateExact(Multiplication(xs)) == None
    requires |ss| == |xs| && forall i :: 0 <= i < |xs| ==> Simplify(xs[i], o, fuel - 1) == Success(ss[i]) && ss[i] != Zero
    requires Occurrences(ss, k) == 1 && forall k' :: k' != k ==> Occurrences(ss, k') == 0
    ensures Simplify(Multiplication(xs), o, fuel) == Success(ApplySign(Negations(ss) % 2 == 1, k))
  {
    MultiplicationUnfolds(xs, o, fuel);
    ScanFactorsIs(xs, ss, o, fuel - 1);
    MultiplyOutSingle(ss, o, fuel - 1, k);
  }

  /** The rebuilt product: the counted factors in ascending order, a term counted once
      kept, one counted c times replaced by its simplified c-th power, the sign the
      parity of the negations. */
  lemma {:induction false} MultiplyOutCollects(ss: seq<Equation>, o: Oracles, fuel: nat, r: Equation)
    requires MultiplyOut(ss, o, fuel) == Success(r)
    ensures exists m: TermMap<int>, fs: seq<Equation> ::
      Sorted(m) && |fs| == |m| >= 1 &&
      (forall k :: Get(m, k) == if Occurrences(ss, k) == 0 then None else Some(Occurrences(ss, k) as int)) &&
      (forall i :: 0 <= i < |m| && m[i].1 == 1 ==> fs[i] == m[i].0) &&
      (forall i :: 0 <= i < |m| && m[i].1 != 1 ==> Simplify(Power(m[i].0, Var(Integer(m[i].1))), o, fuel) == Success(fs[i])) &&
      r == ApplySign(Negations(ss) % 2 == 1, if |fs| == 1 then fs[0] else o.multiplyBy(Multiplication(fs[1..]), fs[0]))
  {
    TallySpec(ss);
    var (m, negative) := Tally(ss);
    assert EmitFactors(m, o, fuel).Success?;
    var fs := EmitFactors(m, o, fuel).value;
    EmitFactorsSpec(m, o, fuel);
    assert |fs| >= 1;
    assert r == ApplySign(negative, if |fs| == 1 then fs[0] else o.multiplyBy(Multiplication(fs[1..]), fs[0]));
    assert negative == (Negations(ss) % 2 == 1);
  }

  /** When every factor simplifies to something other than 0, the product is rebuilt
      from the counted factors as MultiplyOutCollects states. */
  lemma {:induction false} MultiplicationCollects(xs: seq<Equation>, o: Oracles, fuel: nat, ss: seq<Equation>, r: Equation)
    requires fuel > 0 && o.calculateExact(Multiplication(xs)) == None
    requires |ss| == |xs| && forall i :: 0 <= i < |xs| ==> Simplify(xs[i], o, fuel - 1) == Success(ss[i]) && ss[i] != Zero
    requires Simplify(Multiplication(xs), o, fuel) == Success(r)
    ensures MultiplyOut(ss, o, fuel - 1) == Success(r)
  {
    MultiplicationUnfolds(xs, o, fuel);
    ScanFactorsIs(xs, ss, o, fuel - 1);
  }

  // ---------------------------------------------------------------------------
  // Negation, powers and the nodes that are only rebuilt.

  /** The Negative rules: a double negation is the simplified inner expression, an
      Integer or Rational literal is negated outright (so -0 is 0), and anything else
      stays a negation of its simplification. */
  lemma {:induction false} NegativeRules(x: Equation, o: Oracles, fuel: nat)
    requires fuel > 0 && o.calculateExact(Negative(x)) == None
    ensures x.Negative? ==> Simplify(Negative(x), o, fuel) == Simplify(x.operand, o, fuel - 1)
    ensures x.Var? && x.v.Integer? ==> Simplify(Negative(x), o, fuel) == Success(Var(Integer(-x.v.n)))
    ensures x.Var? && x.v.Rational? ==> Simplify(Negative(x), o, fuel) == Success(Var(Rational(-x.v.p, x.v.q)))
    ensures !x.Negative? && !(x.Var? && (x.v.Integer? || x.v.Rational?)) ==>
      Simplify(Negative(x), o, fuel) ==
        match Simplify(x, o, fuel - 1)
        case Success(s) => Success(Negative(s))
        case Failure(err) => Failure(err)
  {
    assert Simplify(Negative(x), o, fuel) == SimplifyNegative(x, o, fuel - 1);
  }

  /** The literal a negated literal simplifies to denotes the negated number. */
  lemma {:induction false} NegatedLiteralValue(x: Equation, o: Oracles, fuel: nat)
    requires fuel > 0 && o.calculateExact(Negative(x)) == None
    requires x.Var? && (x.v.Integer? || x.v.Rational?) && GetNumberOrNone(x).Success?
    ensures Simplify(Negative(x), o, fuel).Success?
    ensures var r := Simplify(Negative(x), o, fuel).value;
      GetNumberOrNone(r).Success? && GetNumberOrNone(r).value.Some? &&
      var before, after := GetNumberOrNone(x).value.value, GetNumberOrNone(r).value.value;
      SameValue(-before.numer, before.denom, after.numer, after.denom)
  {
    assert Simplify(Negative(x), o, fuel) == SimplifyNegative(x, o, fuel - 1);
    match x.v
    case Integer(n) =>
      assert Simplify(Negative(x), o, fuel) == Success(Var(Integer(-n)));
    case Rational(p, q) =>
      var r := Var(Rational(-p, q));
      assert Simplify(Negative(x), o, fuel) == Success(r);
      var before, after := GetNumberOrNone(x).value.value, GetNumberOrNone(r).value.value;
      NegatedSameValue(p, q, before.numer, before.denom, after.numer, after.denom);
  }

  lemma {:induction false} NegatedSameValue(p: int, q: int, bn: int, bd: int, an: int, ad: int)
    requires q != 0 && SameValue(p, q, bn, bd) && SameValue(-p, q, an, ad)
    ensures SameValue(-bn, bd, an, ad)
  {
    assert p * bd == bn * q;
    assert (-p) * ad == an * q;
    assert q * ((-bn) * ad) == q * (an * bd) by {
      calc {
        q * ((-bn) * ad);
        == -((bn * q) * ad);
        == -((p * bd) * ad);
        == ((-p) * ad) * bd;
        == (an * q) * bd;
        == q * (an * bd);
      }
    }
    CancelFactor(q, (-bn) * ad, an * bd);
  }

  lemma {:induction false} CancelFactor(q: int, a: int, b: int)
    requires q != 0 && q * a == q * b
    ensures a == b
  {
    assert q * (a - b) == 0;
  }

  /** The Power rules, on the simplified base and exponent: exponent 1 yields the base,
      a product base has the exponent distributed over its factors without further
      simplification, a power base whose exponent is a literal of the same kind (both
      Integer or both Rational) has the exponents multiplied and is simplified again, and
      anything else stays a power. */
  lemma {:induction false} PowerRules(b: Equation, x: Equation, o: Oracles, fuel: nat, base: Equation, exponent: Equation)
    requires fuel > 0 && o.calculateExact(Power(b, x)) == None
    requires Simplify(b, o, fuel - 1) == Success(base) && Simplify(x, o, fuel - 1) == Success(exponent)
    ensures exponent == One ==> Simplify(Power(b, x), o, fuel) == Success(base)
    ensures exponent != One && base.Multiplication? ==>
      Simplify(Power(b, x), o, fuel).Success? &&
      var r := Simplify(Power(b, x), o, fuel).value;
      r.Multiplication? && |r.factors| == |base.factors| &&
      forall i :: 0 <= i < |base.factors| ==> r.factors[i] == Power(base.factors[i], exponent)
    ensures exponent != One && base.Power? && SameNumericKind(exponent, base.exponent) ==>
      Simplify(Power(b, x), o, fuel) == Simplify(Power(base.base, Multiplication([exponent, base.exponent])), o, fuel - 1)
    ensures exponent != One && !base.Multiplication? && !(base.Power? && SameNumericKind(exponent, base.exponent)) ==>
      Simplify(Power(b, x), o, fuel) == Success(Power(base, exponent))
  {
    assert Simplify(Power(b, x), o, fuel) == SimplifyPower(b, x, o, fuel - 1);
  }

  /** Ln, Sin, Cos and Equals keep their node and simplify what is inside it; a
      Variable is already simple. */
  lemma {:induction false} RebuiltNodes(e: Equation, o: Oracles, fuel: nat)
    requires fuel > 0 && o.calculateExact(e) == None
    ensures e.Var? ==> Simplify(e, o, fuel) == Success(e)
    ensures e.Ln? || e.Sin? || e.Cos? ==>
      var inner := match e case Ln(x) => x case Sin(x) => x case Cos(x) => x case _ => e;
      (Simplify(e, o, fuel).Success? <==> Simplify(inner, o, fuel - 1).Success?) &&
      (Simplify(e, o, fuel).Success? ==>
        Simplify(e, o, fuel).value ==
          match e
          case Ln(_) => Ln(Simplify(inner, o, fuel - 1).value)
          case Sin(_) => Sin(Simplify(inner, o, fuel - 1).value)
          case _ => Cos(Simplify(inner, o, fuel - 1).value))
    ensures e.Equals? ==>
      (Simplify(e, o, fuel).Success? <==>
        Simplify(e.lhs, o, fuel - 1).Success? && Simplify(e.rhs, o, fuel - 1).Success?) &&
      (Simplify(e, o, fuel).Success? ==>
        Simplify(e, o, fuel).value == Equals(Simplify(e.lhs, o, fuel - 1).value, Simplify(e.rhs, o, fuel - 1).value))
  {
  }

  /** An exactly computable expression becomes its literal before anything else. */
  lemma {:induction false} ExactFolding(e: Equation, o: Oracles, fuel: nat)
    requires fuel > 0 && o.calculateExact(e).Some?
    ensures Simplify(e, o, fuel) == Success(FromExact(o.calculateExact(e).value))
  {
  }

  // ---------------------------------------------------------------------------
  // Division: shared factors cancel.

  /** Cancelling a list of factors is cancelling its parts one after the other. */
  lemma {:induction false} CancelFactorsAppend(n: Equation, d: Equation, a: seq<Equation>, b: seq<Equation>)
    ensures CancelFactors(n, d, a + b) ==
      CancelFactors(CancelFactors(n, d, a).0, CancelFactors(n, d, a).1, b)
  {
    if b != [] {
      assert (a + b)[..|a + b| - 1] == a + b[..|b| - 1];
      assert (a + b)[|a + b| - 1] == b[|b| - 1];
      CancelFactorsAppend(n, d, a, b[..|b| - 1]);
    } else {
      assert a + b == a;
    }
  }

  /** Once both sides are 1 nothing more cancels. */
  lemma {:induction false} CancelFactorsOnes(fs: seq<Equation>)
    ensures CancelFactors(One, One, fs) == (One, One)
  {
    if fs != [] {
      CancelFactorsOnes(fs[..|fs| - 1]);
      OneFactors(fs[|fs| - 1]);
    }
  }

  /** An expression divided by itself cancels to 1 over 1: its first shared factor is
      itself. */
  lemma {:induction false} CancelSelf(x: Equation)
    ensures CancelFactors(x, x, SharedFactors(x, x)) == (One, One)
  {
    HasFactorReflexive(x);
    SharedFactorsSpec(x, x);
    var fs := SharedFactors(x, x);
    assert fs == [x] + fs[1..];
    CancelFactorsAppend(x, x, [x], fs[1..]);
    assert CancelFactors(x, x, [x]) == (One, One);
    CancelFactorsOnes(fs[1..]);
  }

  /** x / x simplifies to 1 whenever x simplifies, provided the exact evaluation does
      not fold x / x itself and leaves the literal 1 alone. */
  lemma {:induction false} DivisionBySelf(x: Equation, o: Oracles, fuel: nat, s: Equation)
    requires fuel > 1 && o.calculateExact(Division(x, x)) == None
    requires o.calculateExact(One) == None || o.calculateExact(One) == Some(Rat(1, 1))
    requires Simplify(x, o, fuel - 1) == Success(s)
    ensures Simplify(Division(x, x), o, fuel) == Success(One)
  {
    assert Simplify(Division(x, x), o, fuel) == SimplifyDivision(x, x, o, fuel - 1);
    assert SimplifyDivision(x, x, o, fuel - 1) == CancelAndDivide(s, s, o, fuel - 1);
    CancelSelf(s);
    assert Simplify(One, o, fuel - 1) == Success(One);
  }

  /** A quotient's outcome is decided in the source's order, once its two sides and
      the cancelled sides have simplified: a numerator of 0 gives 0 before a
      denominator of 1 is looked at, and otherwise the quotient stays a Division. */
  lemma {:induction false} DivisionOutcome(num: Equation, den: Equation, o: Oracles, fuel: nat,
                                           n: Equation, d: Equation, n2: Equation, d2: Equation)
    requires o.calculateExact(Division(num, den)) == None
    requires Simplify(num, o, fuel) == Success(n) && Simplify(den, o, fuel) == Success(d)
    requires Simplify(CancelFactors(n, d, SharedFactors(d, n)).0, o, fuel) == Success(n2)
    requires Simplify(CancelFactors(n, d, SharedFactors(d, n)).1, o, fuel) == Success(d2)
    ensures n2 == Zero ==> Simplify(Division(num, den), o, fuel + 1) == Success(Zero)
    ensures n2 != Zero && d2 == One ==> Simplify(Division(num, den), o, fuel + 1) == Success(n2)
    ensures n2 != Zero && d2 != One ==>
      Simplify(Division(num, den), o, fuel + 1) == Success(Division(n2, d2))
  {
    assert Simplify(Division(num, den), o, fuel + 1) == SimplifyDivision(num, den, o, fuel);
    assert SimplifyDivision(num, den, o, fuel) == CancelAndDivide(n, d, o, fuel);
  }

  // ---------------------------------------------------------------------------
  // Termination rests on calculate_exact.

  /** A sum is rebuilt as `Multiplication([term, Addition(units).simplify()])`, and the
      sum of units is simplified by the same rule: unless calculate_exact folds the sum
      [1] itself, simplifying it never finishes, whatever the fuel. */
  lemma {:induction false} SumOfOneNeedsExactFolding(o: Oracles, fuel: nat)
    requires o.calculateExact(Addition([One])) == None
    requires o.calculateExact(One) == None || o.calculateExact(One) == Some(Rat(1, 1))
    ensures Simplify(Addition([One]), o, fuel) == Failure(OutOfFuel)
  {
    if fuel > 1 {
      SumOfOneNeedsExactFolding(o, fuel - 1);
      SumOfOneStep(o, fuel);
    } else if fuel == 1 {
      assert Simplify(Addition([One]), o, fuel) == SimplifyAddition([One], o, 0);
      assert SimplifyEach([One], o, 0) == Failure(OutOfFuel) by {
        assert [One][..0] == [];
      }
    }
  }

  /** Simplifying the sum of one 1 comes back to simplifying it with less fuel. */
  lemma {:induction false} SumOfOneStep(o: Oracles, fuel: nat)
    requires fuel > 1
    requires o.calculateExact(Addition([One])) == None
    requires o.calculateExact(One) == None || o.calculateExact(One) == Some(Rat(1, 1))
    requires Simplify(Addition([One]), o, fuel - 1) == Failure(OutOfFuel)
    ensures Simplify(Addition([One]), o, fuel) == Failure(OutOfFuel)
  {
    assert Simplify(Addition([One]), o, fuel) == SimplifyAddition([One], o, fuel - 1);
    assert SimplifyEach([One], o, fuel - 1) == Success([One]) by {
      assert Simplify(One, o, fuel - 1) == Success(One);
      assert [One][..0] == [];
    }
    assert GroupAddends([One]) == [(One, [One])] by {
      assert [One][..0] == [];
    }
    assert EmitAddends([(One, [One])], o, fuel - 1) == Failure(OutOfFuel) by {
      assert [(One, [One])][..0] == [];
    }
  }

}
