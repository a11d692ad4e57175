/** The part of num_rational's `Rational64` that the expression model relies on:
    `Rational64::new(numer, denom)`, which refuses a zero denominator and otherwise
    stores the fraction in lowest terms with a positive denominator, and
    `Rational64::from(n)`, which is `n/1`. */
module Rationals {
  import opened Wrappers

  /** A rational value as num_rational stores it: a numerator and a denominator. */
  datatype Rat = Rat(numer: int, denom: int)

  function Abs(x: int): nat {
    if x < 0 then -x else x
  }

  /** Greatest common divisor by Euclid's algorithm; Gcd(0, 0) == 0. */
  function Gcd(a: nat, b: nat): nat
    decreases b
  {
    if b == 0 then a else Gcd(b, a % b)
  }

  /** p/q and n/d denote the same number. */
  predicate SameValue(p: int, q: int, n: int, d: int) {
    p * d == n * q
  }

  /** Lowest terms with a positive denominator: the invariant of every Rational64. */
  predicate IsReduced(r: Rat) {
    r.denom > 0 && Gcd(Abs(r.numer), r.denom) == 1
  }

  /** `Rational64::from(n)`. */
  function FromInteger(n: int): (r: Rat)
    ensures IsReduced(r) && SameValue(n, 1, r.numer, r.denom)
  {
    Rat(n, 1)
  }

  /** `Rational64::new(numer, denom)`: the reduction steps of `Ratio::reduce`. */
  function NewRat(numer: int, denom: int): (r: Result<Rat>)
    ensures r.Failure? <==> denom == 0
    ensures r.Failure? ==> r.error == DenominatorZero
    ensures r.Success? ==> IsReduced(r.value) && SameValue(numer, denom, r.value.numer, r.value.denom)
  {
    if denom == 0 then Failure(DenominatorZero)
    else if numer == 0 then Success(Rat(0, 1))
    else if numer == denom then Success(Rat(1, 1))
    else
      var g := Gcd(Abs(numer), Abs(denom));
      ReduceByGcd(numer, denom);
      var n, d := numer / g, denom / g;
      NormalizeSign(numer, denom, n, d);
      if d < 0 then Success(Rat(-n, -d)) else Success(Rat(n, d))
  }

  // ---------------------------------------------------------------------------
  // Number theory behind NewRat's contract.

  lemma {:induction false} MulAtLeast(a: int, m: int)
    requires a >= 1 && m > 0
    ensures a * m >= m
  {
    assert a * m == m + (a - 1) * m;
  }

  lemma {:induction false} ZeroMultiple(a: int, m: int)
    requires m > 0 && -m < a * m < m
    ensures a == 0
  {
    if a > 0 {
      MulAtLeast(a, m);
    } else if a < 0 {
      MulAtLeast(-a, m);
    }
  }

  lemma {:induction false} DivModUnique(x: int, m: int, q: int, r: int)
    requires m > 0 && x == q * m + r && 0 <= r < m
    ensures x / m == q && x % m == r
  {
    var q', r' := x / m, x % m;
    assert x == q' * m + r';
    assert (q - q') * m == q * m - q' * m;
    ZeroMultiple(q - q', m);
  }

  lemma {:induction false} DivOfMultiple(k: int, g: int)
    requires g > 0
    ensures (g * k) / g == k && (g * k) % g == 0
  {
    DivModUnique(g * k, g, k, 0);
  }

  lemma {:induction false} ModScale(a: nat, b: nat, k: nat)
    requires b > 0 && k > 0
    ensures (a * k) % (b * k) == (a % b) * k
  {
    var q, r := a / b, a % b;
    assert a == q * b + r;
    assert a * k == q * (b * k) + r * k;
    assert r * k < b * k;
    DivModUnique(a * k, b * k, q, r * k);
  }

  lemma {:induction false} GcdScale(a: nat, b: nat, k: nat)
    requires k > 0
    ensures Gcd(a * k, b * k) == Gcd(a, b) * k
    decreases b
  {
    if b != 0 {
      ModScale(a, b, k);
      GcdScale(b, a % b, k);
    }
  }

  lemma {:induction false} GcdPositive(a: nat, b: nat)
    requires a > 0 || b > 0
    ensures Gcd(a, b) > 0
    decreases b
  {
    if b != 0 {
      GcdPositive(b, a % b);
    }
  }

  lemma {:induction false} Factor(g: int, x: int, y: int, k: int)
    ensures (g * x) * k + g * y == g * (x * k + y)
  {
  }

  lemma {:induction false} GcdDivides(a: nat, b: nat)
    requires a > 0 || b > 0
    ensures Gcd(a, b) > 0 && a % Gcd(a, b) == 0 && b % Gcd(a, b) == 0
    decreases b
  {
    GcdPositive(a, b);
    if b != 0 {
      GcdDivides(b, a % b);
      var g := Gcd(b, a % b);
      assert g == Gcd(a, b);
      var x := ExactQuotient(b, g);
      var y := ExactQuotient(a % b, g);
      var k := a / b;
      assert a == k * b + a % b;
      Factor(g, x, y, k);
      DivOfMultiple(x * k + y, g);
    }
  }

  /** A multiple of g is g times its quotient. */
  lemma {:induction false} ExactQuotient(m: nat, g: nat) returns (q: int)
    requires g > 0 && m % g == 0
    ensures m == g * q
  {
    q := m / g;
    assert m == q * g + m % g;
  }


  lemma {:induction false} NormalizeSign(numer: int, denom: int, n: int, d: int)
    requires d != 0 && Gcd(Abs(n), Abs(d)) == 1 && SameValue(numer, denom, n, d)
    ensures d < 0 ==> IsReduced(Rat(-n, -d)) && SameValue(numer, denom, -n, -d)
    ensures d > 0 ==> IsReduced(Rat(n, d))
  {
    assert Abs(-n) == Abs(n);
    assert numer * (-d) == -(numer * d);
    assert (-n) * denom == -(n * denom);
  }

  lemma {:induction false} LowestTerms(a': nat, b': nat, g: nat)
    requires g > 0 && Gcd(a' * g, b' * g) == g
    ensures Gcd(a', b') == 1
  {
    GcdScale(a', b', g);
    assert (Gcd(a', b') - 1) * g == Gcd(a', b') * g - g;
    ZeroMultiple(Gcd(a', b') - 1, g);
  }

  lemma {:induction false} SignedQuotient(x: int, g: nat)
    requires g > 0 && Abs(x) % g == 0
    ensures x % g == 0 && x == g * (x / g) && Abs(x / g) == Abs(x) / g
  {
    var k := Abs(x) / g;
    assert Abs(x) == g * k;
    if x < 0 {
      assert x == g * (-k);
      DivOfMultiple(-k, g);
    } else {
      DivOfMultiple(k, g);
    }
  }

  lemma {:induction false} CrossProducts(g: int, n: int, d: int)
    ensures (g * n) * d == n * (g * d)
  {
  }

  /** Dividing numer and denom by their gcd reaches lowest terms without changing the value. */
  lemma {:induction false} ReduceByGcd(numer: int, denom: int)
    requires denom != 0
    ensures Gcd(Abs(numer), Abs(denom)) > 0
    ensures var g := Gcd(Abs(numer), Abs(denom));
      numer % g == 0 && denom % g == 0 &&
      Gcd(Abs(numer / g), Abs(denom / g)) == 1 &&
      SameValue(numer, denom, numer / g, denom / g)
  {
    var a, b := Abs(numer), Abs(denom);
    GcdDivides(a, b);
    var g := Gcd(a, b);
    var a', b' := a / g, b / g;
    assert a == a' * g && b == b' * g;
    LowestTerms(a', b', g);
    SignedQuotient(numer, g);
    SignedQuotient(denom, g);
    CrossProducts(g, numer / g, denom / g);
  }
}
