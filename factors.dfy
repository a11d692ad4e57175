/** The factor analyser of fishrambeta/src/math/factors.rs: when does an expression
    structurally carry a factor, which first-level factors does it have, and how is a
    factor taken out of it. */
module Factors {
  import opened Wrappers
  import opened Expressions

  /** `has_factor`: e itself; the base of a power; a factor of any factor of a product;
      a factor of every addend of a sum; a factor of a negated operand. */
  function HasFactor(e: Equation, f: Equation): bool
    decreases e
  {
    if e == f then true
    else match e
      case Power(b, _) => b == f
      case Multiplication(xs) => AnyHasFactor(xs, f)
      case Addition(xs) => AllHaveFactor(xs, f)
      case Negative(x) => HasFactor(x, f)
      case _ => false
  }

  /** `iter().any(|x| x.has_factor(f))`, left to right. */
  function AnyHasFactor(xs: seq<Equation>, f: Equation): bool
    decreases xs
  {
    xs != [] && (HasFactor(xs[0], f) || AnyHasFactor(xs[1..], f))
  }

  /** `iter().all(|x| x.has_factor(f))`, left to right. */
  function AllHaveFactor(xs: seq<Equation>, f: Equation): bool
    decreases xs
  {
    xs == [] || (HasFactor(xs[0], f) && AllHaveFactor(xs[1..], f))
  }

  lemma {:induction false} AnyHasFactorIff(xs: seq<Equation>, f: Equation)
    ensures AnyHasFactor(xs, f) <==> exists i :: 0 <= i < |xs| && HasFactor(xs[i], f)
  {
    if xs != [] {
      AnyHasFactorIff(xs[1..], f);
      if exists i :: 0 <= i < |xs| && HasFactor(xs[i], f) {
        var i :| 0 <= i < |xs| && HasFactor(xs[i], f);
        if i > 0 { assert xs[1..][i - 1] == xs[i]; }
      }
      if exists i :: 0 <= i < |xs[1..]| && HasFactor(xs[1..][i], f) {
        var i :| 0 <= i < |xs[1..]| && HasFactor(xs[1..][i], f);
        assert xs[i + 1] == xs[1..][i];
      }
    }
  }

  lemma {:induction false} AllHaveFactorIff(xs: seq<Equation>, f: Equation)
    ensures AllHaveFactor(xs, f) <==> forall i :: 0 <= i < |xs| ==> HasFactor(xs[i], f)
  {
    if xs != [] {
      AllHaveFactorIff(xs[1..], f);
      if forall i :: 0 <= i < |xs| ==> HasFactor(xs[i], f) {
        forall i | 0 <= i < |xs[1..]| ensures HasFactor(xs[1..][i], f) {
          assert xs[1..][i] == xs[i + 1];
        }
      }
      if AllHaveFactor(xs, f) {
        forall i | 0 <= i < |xs| ensures HasFactor(xs[i], f) {
          if i > 0 { assert xs[1..][i - 1] == xs[i]; }
        }
      }
    }
  }

  /** Every expression has itself as a factor. */
  lemma {:induction false} HasFactorReflexive(e: Equation)
    ensures HasFactor(e, e)
  {
  }

  /** `has_factor` variant by variant. Cancelling f out of a sum is only allowed when
      every addend has it, so the empty sum has every factor; a product has f as soon
      as one factor has it; the other leaves have only themselves. */
  lemma {:induction false} HasFactorByVariant(e: Equation, f: Equation)
    ensures e.Power? ==> (HasFactor(e, f) <==> e == f || e.base == f)
    ensures e.Negative? ==> (HasFactor(e, f) <==> e == f || HasFactor(e.operand, f))
    ensures e.Multiplication? ==>
      (HasFactor(e, f) <==> e == f || exists i :: 0 <= i < |e.factors| && HasFactor(e.factors[i], f))
    ensures e.Addition? ==>
      (HasFactor(e, f) <==> e == f || forall i :: 0 <= i < |e.addends| ==> HasFactor(e.addends[i], f))
    ensures e.Addition? && e.addends == [] ==> HasFactor(e, f)
    ensures e.Var? || e.Division? || e.Ln? || e.Sin? || e.Cos? || e.Equals? ==>
      (HasFactor(e, f) <==> e == f)
  {
    match e
    case Multiplication(xs) => AnyHasFactorIff(xs, f);
    case Addition(xs) => AllHaveFactorIff(xs, f);
    case _ =>
  }

  /** `get_all_factors`: e followed by the factors of a product or the base of a power. */
  function GetAllFactors(e: Equation): (r: seq<Equation>)
    ensures |r| >= 1 && r[0] == e
    ensures e.Multiplication? ==> r[1..] == e.factors
    ensures e.Power? ==> r[1..] == [e.base]
    ensures !e.Multiplication? && !e.Power? ==> |r| == 1
  {
    match e
    case Multiplication(xs) => [e] + xs
    case Power(b, _) => [e, b]
    case _ => [e]
  }

  /** Everything get_all_factors lists really is a factor of e. */
  lemma {:induction false} AllFactorsAreFactors(e: Equation)
    ensures forall x :: x in GetAllFactors(e) ==> HasFactor(e, x)
  {
    forall x | x in GetAllFactors(e) ensures HasFactor(e, x) {
      if e.Multiplication? && x != e {
        var i :| 0 <= i < |GetAllFactors(e)| && GetAllFactors(e)[i] == x;
        assert e.factors[i - 1] == x;
        AnyHasFactorIff(e.factors, x);
      }
    }
  }

  /** The elements x of xs, in order, for which `host.has_factor(x)` holds. */
  function FilterFactorsOf(xs: seq<Equation>, host: Equation): seq<Equation> {
    if xs == [] then []
    else
      FilterFactorsOf(xs[..|xs| - 1], host) +
      (if HasFactor(host, xs[|xs| - 1]) then [xs[|xs| - 1]] else [])
  }

  /** ys is xs with some elements left out, the rest kept in order. */
  predicate IsSubsequence(ys: seq<Equation>, xs: seq<Equation>) {
    ys == [] ||
    (xs != [] &&
     ((ys[|ys| - 1] == xs[|xs| - 1] && IsSubsequence(ys[..|ys| - 1], xs[..|xs| - 1])) ||
      IsSubsequence(ys, xs[..|xs| - 1])))
  }

  /** The filter keeps the elements of xs in their order. */
  lemma {:induction false} FilterFactorsOfIsSubsequence(xs: seq<Equation>, host: Equation)
    ensures IsSubsequence(FilterFactorsOf(xs, host), xs)
  {
    if xs != [] {
      var init, last := xs[..|xs| - 1], xs[|xs| - 1];
      FilterFactorsOfIsSubsequence(init, host);
      var r := FilterFactorsOf(xs, host);
      if HasFactor(host, last) {
        assert r[..|r| - 1] == FilterFactorsOf(init, host) && r[|r| - 1] == last;
        assert IsSubsequence(r[..|r| - 1], xs[..|xs| - 1]);
      } else {
        assert r == FilterFactorsOf(init, host);
        assert IsSubsequence(r, xs[..|xs| - 1]);
      }
    }
  }

  /** The filter keeps exactly the elements that are factors of host. */
  lemma {:induction false} FilterFactorsOfMembers(xs: seq<Equation>, host: Equation)
    ensures forall x :: x in FilterFactorsOf(xs, host) <==> x in xs && HasFactor(host, x)
  {
    if xs != [] {
      var init, last := xs[..|xs| - 1], xs[|xs| - 1];
      FilterFactorsOfMembers(init, host);
      assert xs == init + [last];
    }
  }

  /** The filter keeps every occurrence of a factor of host and none of anything else. */
  lemma {:induction false} FilterFactorsOfCounts(xs: seq<Equation>, host: Equation)
    ensures forall x :: multiset(FilterFactorsOf(xs, host))[x] ==
                        (if HasFactor(host, x) then multiset(xs)[x] else 0)
  {
    if xs != [] {
      var init, last := xs[..|xs| - 1], xs[|xs| - 1];
      FilterFactorsOfCounts(init, host);
      assert xs == init + [last];
    }
  }

  lemma {:induction false} FilterFactorsOfAll(xs: seq<Equation>, host: Equation)
    requires forall x :: x in xs ==> HasFactor(host, x)
    ensures FilterFactorsOf(xs, host) == xs
  {
    if xs != [] {
      var init, last := xs[..|xs| - 1], xs[|xs| - 1];
      assert xs == init + [last];
      FilterFactorsOfAll(init, host);
    }
  }

  /** `get_factors`: filtering get_all_factors by has_factor removes nothing. */
  function GetFactors(e: Equation): seq<Equation> {
    FilterFactorsOf(GetAllFactors(e), e)
  }

  lemma {:induction false} GetFactorsIsAllFactors(e: Equation)
    ensures GetFactors(e) == GetAllFactors(e)
  {
    AllFactorsAreFactors(e);
    FilterFactorsOfAll(GetAllFactors(e), e);
  }

  /** `shared_factors`: the first-level factors of a that b also has, in a's order. */
  function SharedFactors(a: Equation, b: Equation): seq<Equation> {
    FilterFactorsOf(GetAllFactors(a), b)
  }

  lemma {:induction false} SharedFactorsSpec(a: Equation, b: Equation)
    ensures IsSubsequence(SharedFactors(a, b), GetAllFactors(a))
    ensures forall x :: x in SharedFactors(a, b) <==> x in GetAllFactors(a) && HasFactor(b, x)
    ensures forall x :: x in SharedFactors(a, b) ==> HasFactor(a, x) && HasFactor(b, x)
    ensures HasFactor(b, a) ==> |SharedFactors(a, b)| >= 1 && SharedFactors(a, b)[0] == a
    ensures forall x :: multiset(SharedFactors(a, b))[x] ==
                        (if HasFactor(b, x) then multiset(GetAllFactors(a))[x] else 0)
  {
    FilterFactorsOfIsSubsequence(GetAllFactors(a), b);
    FilterFactorsOfCounts(GetAllFactors(a), b);
    FilterFactorsOfMembers(GetAllFactors(a), b);
    AllFactorsAreFactors(a);
    if HasFactor(b, a) {
      FilterHead(GetAllFactors(a), b);
    }
  }

  lemma {:induction false} FilterHead(xs: seq<Equation>, host: Equation)
    requires xs != [] && HasFactor(host, xs[0])
    ensures |FilterFactorsOf(xs, host)| >= 1 && FilterFactorsOf(xs, host)[0] == xs[0]
  {
    if |xs| > 1 {
      FilterHead(xs[..|xs| - 1], host);
    }
  }

  /** The for loop of `shared_factors`, pushing each factor of a that b has. */
  method ComputeSharedFactors(a: Equation, b: Equation) returns (shared: seq<Equation>)
    ensures shared == SharedFactors(a, b)
  {
    var factors := GetAllFactors(a);
    shared := [];
    for i := 0 to |factors|
      invariant shared == FilterFactorsOf(factors[..i], b)
    {
      assert factors[..i + 1][..i] == factors[..i];
      if HasFactor(b, factors[i]) {
        shared := shared + [factors[i]];
      }
    }
    assert factors[..|factors|] == factors;
  }

  /** `remove_factor` behind its guard: the caller has established has_factor, and so
      does every recursive call. */
  function Remove(e: Equation, f: Equation): (r: Equation)
    requires HasFactor(e, f)
    decreases e
    ensures e == f ==> r == One
    ensures e != f && e.Negative? ==> r.Negative?
    ensures e != f && e.Multiplication? ==> r.Multiplication? && |r.factors| == |e.factors|
    ensures e != f && e.Addition? ==> r.Addition? && |r.addends| == |e.addends|
    ensures e != f && e.Power? ==> r == Power(e.base, Addition([e.exponent, Var(Integer(-1))]))
    ensures e != f ==> e.Negative? || e.Multiplication? || e.Addition? || e.Power?
  {
    if e == f then One
    else match e
      case Negative(x) => Negative(Remove(x, f))
      case Multiplication(xs) =>
        assert AnyHasFactor(xs, f) && xs != [];
        var removed := RemoveWhereFactor(xs, f);
        if |removed| != 0 then Multiplication(removed) else One
      case Power(b, x) => Power(b, Addition([x, Var(Integer(-1))]))
      case Addition(xs) =>
        Addition(RemoveFromEach(xs, f))
      case _ => assert false; e
  }

  /** The map of the Multiplication case: remove f from each factor that has it. */
  function RemoveWhereFactor(xs: seq<Equation>, f: Equation): (r: seq<Equation>)
    decreases xs
    ensures |r| == |xs|
    ensures forall i :: 0 <= i < |xs| ==>
      r[i] == if HasFactor(xs[i], f) then Remove(xs[i], f) else xs[i]
  {
    if xs == [] then []
    else [if HasFactor(xs[0], f) then Remove(xs[0], f) else xs[0]] + RemoveWhereFactor(xs[1..], f)
  }

  /** The map of the Addition case: remove f from every addend. */
  function RemoveFromEach(xs: seq<Equation>, f: Equation): (r: seq<Equation>)
    requires AllHaveFactor(xs, f)
    decreases xs
    ensures |r| == |xs|
  {
    if xs == [] then [] else [Remove(xs[0], f)] + RemoveFromEach(xs[1..], f)
  }

  /** `remove_factor`: refuses an f that is not a factor, otherwise removes it. */
  function RemoveFactor(e: Equation, f: Equation): (r: Result<Equation>)
    ensures r.Failure? <==> !HasFactor(e, f)
    ensures r.Failure? ==> r.error == NotAFactor
    ensures r.Success? ==> r.value == Remove(e, f)
  {
    if !HasFactor(e, f) then Failure(NotAFactor) else Success(Remove(e, f))
  }

  /** On a product every factor that has f loses it, not just the first; the others are
      kept. On a sum every addend loses it. A negation keeps its sign. */
  lemma {:induction false} RemoveByVariant(e: Equation, f: Equation)
    requires HasFactor(e, f) && e != f
    ensures e.Multiplication? ==> forall i :: 0 <= i < |e.factors| ==>
      Remove(e, f).factors[i] ==
        (if HasFactor(e.factors[i], f) then Remove(e.factors[i], f) else e.factors[i])
    ensures e.Addition? ==> forall i :: 0 <= i < |e.addends| ==>
      HasFactor(e.addends[i], f) && Remove(e, f).addends[i] == Remove(e.addends[i], f)
    ensures e.Negative? ==> HasFactor(e.operand, f) && Remove(e, f) == Negative(Remove(e.operand, f))
  {
    match e
    case Addition(xs) =>
      AllHaveFactorIff(xs, f);
      RemoveFromEachAt(xs, f);
    case _ =>
  }

  lemma {:induction false} RemoveFromEachAt(xs: seq<Equation>, f: Equation)
    requires AllHaveFactor(xs, f)
    ensures forall i :: 0 <= i < |xs| ==> HasFactor(xs[i], f) && RemoveFromEach(xs, f)[i] == Remove(xs[i], f)
  {
    AllHaveFactorIff(xs, f);
    if xs != [] {
      RemoveFromEachAt(xs[1..], f);
      forall i | 0 < i < |xs| ensures RemoveFromEach(xs, f)[i] == Remove(xs[i], f) {
        assert xs[1..][i - 1] == xs[i];
      }
    }
  }

  /** The literal 1 has no factor but itself, and removing 1 from 1 leaves 1. */
  lemma {:induction false} OneFactors(f: Equation)
    ensures HasFactor(One, f) <==> f == One
    ensures HasFactor(One, One) && Remove(One, One) == One
  {
  }
}
