/** The simplifier of fishrambeta/src/math/simplify.rs.

    `calculate_exact` and `multiply_by` live in files this model does not include; they
    are parameters (`Oracles`) about which nothing is assumed. The source's recursion is
    not structural (it re-simplifies rebuilt nodes), so every call carries fuel and
    reports `OutOfFuel` when it runs out. */
module Simplifier {
  import opened Wrappers
  import opened Rationals
  import opened Expressions
  import opened Factors
  import opened TermMap

  /** `calculate_exact` (exact rational folding) and `Equation::multiply_by`. */
  datatype Oracles = Oracles(
    calculateExact: Equation -> Option<Rat>,
    multiplyBy: (Equation, Equation) -> Equation)

  /** The literal `simplify` returns for an exactly computed value. */
  function FromExact(v: Rat): (r: Equation)
    ensures r.Var? && (r.v.Integer? <==> v.denom == 1)
    ensures r.v.Integer? ==> r.v.n == v.numer
    ensures r.v.Rational? ==> r.v.p == v.numer && r.v.q == v.denom
  {
    if v.denom == 1 then Var(Integer(v.numer)) else Var(Rational(v.numer, v.denom))
  }

  /** `Equation::simplify`: an exactly computable value becomes its literal; anything
      else is simplified by node kind. */
  function Simplify(e: Equation, o: Oracles, fuel: nat): Result<Equation>
    decreases fuel, 0, 0
  {
    if fuel == 0 then Failure(OutOfFuel)
    else match o.calculateExact(e)
      case Some(v) => Success(FromExact(v))
      case None => SimplifyNode(e, o, fuel - 1)
  }

  /** The match on the node kind. */
  function SimplifyNode(e: Equation, o: Oracles, fuel: nat): Result<Equation>
    decreases fuel, 3, 0
  {
    match e
    case Var(_) => Success(e)
    case Negative(x) => SimplifyNegative(x, o, fuel)
    case Addition(xs) => SimplifyAddition(xs, o, fuel)
    case Multiplication(xs) => SimplifyMultiplication(xs, o, fuel)
    case Division(n, d) => SimplifyDivision(n, d, o, fuel)
    case Power(b, x) => SimplifyPower(b, x, o, fuel)
    case Ln(x) =>
      var s :- Simplify(x, o, fuel);
      Success(Ln(s))
    case Sin(x) =>
      var s :- Simplify(x, o, fuel);
      Success(Sin(s))
    case Cos(x) =>
      var s :- Simplify(x, o, fuel);
      Success(Cos(s))
    case Equals(l, r) =>
      var sl :- Simplify(l, o, fuel);
      var sr :- Simplify(r, o, fuel);
      Success(Equals(sl, sr))
  }

  /** The Negative arm, on the operand x. */
  function SimplifyNegative(x: Equation, o: Oracles, fuel: nat): Result<Equation>
    decreases fuel, 2, 0
  {
    match x
    case Negative(y) => Simplify(y, o, fuel)
    case Var(Integer(0)) => Success(Zero)
    case Var(Integer(n)) => Success(Var(Integer(-n)))
    case Var(Rational(p, q)) => Success(Var(Rational(-p, q)))
    case _ =>
      var s :- Simplify(x, o, fuel);
      Success(Negative(s))
  }

  /** Each expression simplified, left to right; the first failure stops the walk. */
  function SimplifyEach(xs: seq<Equation>, o: Oracles, fuel: nat): Result<seq<Equation>>
    decreases fuel, 1, |xs|
  {
    if xs == [] then Success([])
    else
      var init :- SimplifyEach(xs[..|xs| - 1], o, fuel);
      var last :- Simplify(xs[|xs| - 1], o, fuel);
      Success(init + [last])
  }

  // ---------------------------------------------------------------------------
  // Addition

  /** A simplified addend as (term, signed unit): a leading Negative is stripped. */
  function SplitSign(s: Equation): (Equation, Equation) {
    match s
    case Negative(x) => (x, Var(Integer(-1)))
    case _ => (s, One)
  }

  /** The first loop of simplify_addition: term -> the units of its occurrences. */
  function GroupAddends(ss: seq<Equation>): TermMap<seq<Equation>> {
    if ss == [] then []
    else
      var m := GroupAddends(ss[..|ss| - 1]);
      var (term, unit) := SplitSign(ss[|ss| - 1]);
      match Get(m, term)
      case Some(units) => Insert(m, term, units + [unit])
      case None => Insert(m, term, [unit])
  }

  /** The second loop: `Multiplication([term, Addition(units).simplify()]).simplify()`. */
  function EmitAddends(m: TermMap<seq<Equation>>, o: Oracles, fuel: nat): Result<seq<Equation>>
    decreases fuel, 1, |m|
  {
    if m == [] then Success([])
    else
      var init :- EmitAddends(m[..|m| - 1], o, fuel);
      var next :- EmitAddend(m[|m| - 1].0, m[|m| - 1].1, o, fuel);
      Success(init + [next])
  }

  function EmitAddend(term: Equation, units: seq<Equation>, o: Oracles, fuel: nat): Result<Equation>
    decreases fuel, 1, 0
  {
    var count :- Simplify(Addition(units), o, fuel);
    Simplify(Multiplication([term, count]), o, fuel)
  }

  function SimplifyAddition(xs: seq<Equation>, o: Oracles, fuel: nat): Result<Equation>
    decreases fuel, 2, 0
  {
    var ss :- SimplifyEach(xs, o, fuel);
    var addends :- EmitAddends(GroupAddends(ss), o, fuel);
    Success(Addition(addends))
  }

  // ---------------------------------------------------------------------------
  // Multiplication

  datatype FactorScan = HitZero | Simplified(factors: seq<Equation>)

  /** The factors simplified left to right, stopping at the first that simplifies to 0. */
  function ScanFactors(xs: seq<Equation>, o: Oracles, fuel: nat): Result<FactorScan>
    decreases fuel, 1, |xs|
  {
    if xs == [] then Success(Simplified([]))
    else
      var init :- ScanFactors(xs[..|xs| - 1], o, fuel);
      match init
      case HitZero => Success(HitZero)
      case Simplified(ss) =>
        var s :- Simplify(xs[|xs| - 1], o, fuel);
        if s == Zero then Success(HitZero) else Success(Simplified(ss + [s]))
  }

  /** The fold of simplify_multiplication's first loop over simplified factors: 1s are
      dropped, each stripped Negative flips the sign, equal factors are counted. */
  function Tally(ss: seq<Equation>): (TermMap<int>, bool) {
    if ss == [] then ([], false)
    else
      var (m, negative) := Tally(ss[..|ss| - 1]);
      var s := ss[|ss| - 1];
      if s == One then (m, negative)
      else
        var (term, negative') := if s.Negative? then (s.operand, !negative) else (s, negative);
        (Insert(m, term, Get(m, term).GetOr(0) + 1), negative')
  }

  /** The second loop: a factor counted c > 1 times becomes `Power(f, c).simplify()`. */
  function EmitFactors(m: TermMap<int>, o: Oracles, fuel: nat): Result<seq<Equation>>
    decreases fuel, 1, |m|
  {
    if m == [] then Success([])
    else
      var init :- EmitFactors(m[..|m| - 1], o, fuel);
      var (f, count) := m[|m| - 1];
      var next :- if count == 1 then Success(f) else Simplify(Power(f, Var(Integer(count))), o, fuel);
      Success(init + [next])
  }

  function ApplySign(negative: bool, e: Equation): Equation {
    if negative then Negative(e) else e
  }

  function SimplifyMultiplication(xs: seq<Equation>, o: Oracles, fuel: nat): Result<Equation>
    decreases fuel, 2, 1
  {
    var scan :- ScanFactors(xs, o, fuel);
    match scan
    case HitZero => Success(Zero)
    case Simplified(ss) => MultiplyOut(ss, o, fuel)
  }

  /** The rest of simplify_multiplication, on factors none of which simplified to 0. */
  function MultiplyOut(ss: seq<Equation>, o: Oracles, fuel: nat): Result<Equation>
    decreases fuel, 2, 0
  {
    var (m, negative) := Tally(ss);
    var fs :- EmitFactors(m, o, fuel);
    if |fs| == 1 then Success(ApplySign(negative, fs[0]))
    else if |fs| == 0 then Failure(IndexOutOfBounds)
    else Success(ApplySign(negative, o.multiplyBy(Multiplication(fs[1..]), fs[0])))
  }

  // ---------------------------------------------------------------------------
  // Power

  /** Both exponents Integer literals, or both Rational literals. */
  predicate SameNumericKind(a: Equation, b: Equation) {
    a.Var? && b.Var? && ((a.v.Integer? && b.v.Integer?) || (a.v.Rational? && b.v.Rational?))
  }

  function PowerEach(ts: seq<Equation>, exponent: Equation): (r: seq<Equation>)
    ensures |r| == |ts|
    ensures forall i :: 0 <= i < |ts| ==> r[i] == Power(ts[i], exponent)
  {
    if ts == [] then [] else [Power(ts[0], exponent)] + PowerEach(ts[1..], exponent)
  }

  function SimplifyPower(b: Equation, x: Equation, o: Oracles, fuel: nat): Result<Equation>
    decreases fuel, 2, 0
  {
    var base :- Simplify(b, o, fuel);
    var exponent :- Simplify(x, o, fuel);
    if exponent == One then Success(base)
    else match base
      case Multiplication(ts) => Success(Multiplication(PowerEach(ts, exponent)))
      case Power(b2, e2) =>
        if SameNumericKind(exponent, e2) then Simplify(Power(b2, Multiplication([exponent, e2])), o, fuel)
        else Success(Power(base, exponent))
      case _ => Success(Power(base, exponent))
  }

  // ---------------------------------------------------------------------------
  // Division

  /** The for loop of simplify_division over the shared factors fs: a factor is removed
      from both sides only if both still have it. */
  function CancelFactors(n: Equation, d: Equation, fs: seq<Equation>): (Equation, Equation) {
    if fs == [] then (n, d)
    else
      var (n', d') := CancelFactors(n, d, fs[..|fs| - 1]);
      var f := fs[|fs| - 1];
      if HasFactor(n', f) && HasFactor(d', f) then (Remove(n', f), Remove(d', f)) else (n', d')
  }

  function SimplifyDivision(num: Equation, den: Equation, o: Oracles, fuel: nat): Result<Equation>
    decreases fuel, 2, 0
  {
    var n :- Simplify(num, o, fuel);
    var d :- Simplify(den, o, fuel);
    CancelAndDivide(n, d, o, fuel)
  }

  /** The rest of simplify_division, on the simplified numerator n and denominator d. */
  function CancelAndDivide(n: Equation, d: Equation, o: Oracles, fuel: nat): Result<Equation>
    decreases fuel, 1, 0
  {
    var (n1, d1) := CancelFactors(n, d, SharedFactors(d, n));
    var n2 :- Simplify(n1, o, fuel);
    var d2 :- Simplify(d1, o, fuel);
    if n2 == Zero then Success(Zero)
    else if d2 == One then Success(n2)
    else Success(Division(n2, d2))
  }
}
