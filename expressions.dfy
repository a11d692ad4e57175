/** The expression data model of fishrambeta/src/math/mod.rs: the `Equation`, `Variable`
    and `Constant` sum types, the total order Rust derives for them (`#[derive(Ord)]`),
    and `get_number_or_none`. */
module Expressions {
  import opened Wrappers
  import opened Rationals

  /** Mathematical constants, in declaration order. */
  datatype Constant = PI | E

  /** A leaf of an expression. Integer and rational parts are i64 in the source. */
  datatype Variable =
    | Integer(n: int)
    | Rational(p: int, q: int)            // (numerator, denominator), not necessarily reduced
    | Constant(c: Constant)
    | Letter(name: string)
    | Vector(name: string)

  /** A math expression tree; the constructor `Var` is the source's `Equation::Variable`. */
  datatype Equation =
    | Var(v: Variable)
    | Negative(operand: Equation)
    | Addition(addends: seq<Equation>)
    | Multiplication(factors: seq<Equation>)
    | Division(numerator: Equation, denominator: Equation)
    | Power(base: Equation, exponent: Equation)
    | Ln(arg: Equation)
    | Equals(lhs: Equation, rhs: Equation)
    | Sin(arg: Equation)
    | Cos(arg: Equation)

  const Zero := Var(Integer(0))
  const One := Var(Integer(1))

  // ---------------------------------------------------------------------------
  // The derived order. `#[derive(Ord)]` compares variants by declaration order and,
  // within a variant, the fields lexicographically; a Vec and a String compare
  // lexicographically element by element, a shorter prefix first.

  datatype Ordering = Less | Equal | Greater

  function Flip(o: Ordering): Ordering {
    match o
    case Less => Greater
    case Equal => Equal
    case Greater => Less
  }

  /** `Ordering::then`: the first comparison unless it is Equal. */
  function Then(first: Ordering, second: Ordering): Ordering {
    if first == Equal then second else first
  }

  function CmpInt(a: int, b: int): Ordering {
    if a < b then Less else if a == b then Equal else Greater
  }

  function CmpConstant(a: Constant, b: Constant): Ordering {
    CmpInt(if a.PI? then 0 else 1, if b.PI? then 0 else 1)
  }

  function CmpString(a: string, b: string): Ordering {
    if a == [] then (if b == [] then Equal else Less)
    else if b == [] then Greater
    else Then(CmpInt(a[0] as int, b[0] as int), CmpString(a[1..], b[1..]))
  }

  function VariableRank(v: Variable): nat {
    match v
    case Integer(_) => 0
    case Rational(_, _) => 1
    case Constant(_) => 2
    case Letter(_) => 3
    case Vector(_) => 4
  }

  function CmpVariable(a: Variable, b: Variable): Ordering {
    if VariableRank(a) != VariableRank(b) then CmpInt(VariableRank(a), VariableRank(b))
    else match (a, b)
      case (Integer(x), Integer(y)) => CmpInt(x, y)
      case (Rational(p1, q1), Rational(p2, q2)) => Then(CmpInt(p1, p2), CmpInt(q1, q2))
      case (Constant(x), Constant(y)) => CmpConstant(x, y)
      case (Letter(x), Letter(y)) => CmpString(x, y)
      case (Vector(x), Vector(y)) => CmpString(x, y)
      case _ => Equal
  }

  /** Position of the variant in the declaration of `Equation`. */
  function Rank(e: Equation): nat {
    match e
    case Var(_) => 0
    case Negative(_) => 1
    case Addition(_) => 2
    case Multiplication(_) => 3
    case Division(_, _) => 4
    case Power(_, _) => 5
    case Ln(_) => 6
    case Equals(_, _) => 7
    case Sin(_) => 8
    case Cos(_) => 9
  }

  function Cmp(a: Equation, b: Equation): Ordering
    decreases a
  {
    if Rank(a) != Rank(b) then CmpInt(Rank(a), Rank(b))
    else match (a, b)
      case (Var(x), Var(y)) => CmpVariable(x, y)
      case (Negative(x), Negative(y)) => Cmp(x, y)
      case (Addition(xs), Addition(ys)) => CmpSeq(xs, ys)
      case (Multiplication(xs), Multiplication(ys)) => CmpSeq(xs, ys)
      case (Division(x1, x2), Division(y1, y2)) => Then(Cmp(x1, y1), Cmp(x2, y2))
      case (Power(x1, x2), Power(y1, y2)) => Then(Cmp(x1, y1), Cmp(x2, y2))
      case (Ln(x), Ln(y)) => Cmp(x, y)
      case (Equals(x1, x2), Equals(y1, y2)) => Then(Cmp(x1, y1), Cmp(x2, y2))
      case (Sin(x), Sin(y)) => Cmp(x, y)
      case (Cos(x), Cos(y)) => Cmp(x, y)
      case _ => Equal
  }

  function CmpSeq(xs: seq<Equation>, ys: seq<Equation>): Ordering
    decreases xs
  {
    if xs == [] then (if ys == [] then Equal else Less)
    else if ys == [] then Greater
    else Then(Cmp(xs[0], ys[0]), CmpSeq(xs[1..], ys[1..]))
  }

  /** The strict order the simplifier's BTreeMaps are keyed by. */
  predicate Lt(a: Equation, b: Equation) {
    Cmp(a, b) == Less
  }

  // ---------------------------------------------------------------------------
  // The order is a strict total order whose equivalence is structural equality.

  lemma {:induction false} CmpIntFacts(a: int, b: int, c: int)
    ensures CmpInt(a, b) == Equal <==> a == b
    ensures CmpInt(b, a) == Flip(CmpInt(a, b))
    ensures CmpInt(a, b) == Less && CmpInt(b, c) == Less ==> CmpInt(a, c) == Less
  {
  }

  lemma {:induction false} CmpStringEqual(a: string, b: string)
    ensures CmpString(a, b) == Equal <==> a == b
  {
    if a != [] && b != [] {
      CmpStringEqual(a[1..], b[1..]);
      if a[0] == b[0] && a[1..] == b[1..] {
        assert a == [a[0]] + a[1..] && b == [b[0]] + b[1..];
      }
    }
  }

  lemma {:induction false} CmpStringFlip(a: string, b: string)
    ensures CmpString(b, a) == Flip(CmpString(a, b))
  {
    if a != [] && b != [] {
      CmpStringFlip(a[1..], b[1..]);
    }
  }

  lemma {:induction false} CmpStringTrans(a: string, b: string, c: string)
    requires CmpString(a, b) == Less && CmpString(b, c) == Less
    ensures CmpString(a, c) == Less
  {
    if a != [] && c != [] {
      assert b != [];
      if a[0] == b[0] && b[0] == c[0] {
        CmpStringTrans(a[1..], b[1..], c[1..]);
      }
    }
  }

  lemma {:induction false} CmpVariableEqual(a: Variable, b: Variable)
    ensures CmpVariable(a, b) == Equal <==> a == b
  {
    if VariableRank(a) == VariableRank(b) {
      match (a, b)
      case (Letter(x), Letter(y)) => CmpStringEqual(x, y);
      case (Vector(x), Vector(y)) => CmpStringEqual(x, y);
      case _ =>
    }
  }

  lemma {:induction false} CmpVariableFlip(a: Variable, b: Variable)
    ensures CmpVariable(b, a) == Flip(CmpVariable(a, b))
  {
    if VariableRank(a) == VariableRank(b) {
      match (a, b)
      case (Letter(x), Letter(y)) => CmpStringFlip(x, y);
      case (Vector(x), Vector(y)) => CmpStringFlip(x, y);
      case _ =>
    }
  }

  lemma {:induction false} CmpVariableTrans(a: Variable, b: Variable, c: Variable)
    requires CmpVariable(a, b) == Less && CmpVariable(b, c) == Less
    ensures CmpVariable(a, c) == Less
  {
    if VariableRank(a) == VariableRank(b) == VariableRank(c) {
      match (a, b, c)
      case (Letter(x), Letter(y), Letter(z)) => CmpStringTrans(x, y, z);
      case (Vector(x), Vector(y), Vector(z)) => CmpStringTrans(x, y, z);
      case _ =>
    }
  }

  lemma {:induction false} CmpEqual(a: Equation, b: Equation)
    ensures Cmp(a, b) == Equal <==> a == b
    decreases a
  {
    if Rank(a) == Rank(b) {
      match (a, b)
      case (Var(x), Var(y)) => CmpVariableEqual(x, y);
      case (Negative(x), Negative(y)) => CmpEqual(x, y);
      case (Addition(xs), Addition(ys)) => CmpSeqEqual(xs, ys);
      case (Multiplication(xs), Multiplication(ys)) => CmpSeqEqual(xs, ys);
      case (Division(x1, x2), Division(y1, y2)) => CmpEqual(x1, y1); CmpEqual(x2, y2);
      case (Power(x1, x2), Power(y1, y2)) => CmpEqual(x1, y1); CmpEqual(x2, y2);
      case (Ln(x), Ln(y)) => CmpEqual(x, y);
      case (Equals(x1, x2), Equals(y1, y2)) => CmpEqual(x1, y1); CmpEqual(x2, y2);
      case (Sin(x), Sin(y)) => CmpEqual(x, y);
      case (Cos(x), Cos(y)) => CmpEqual(x, y);
    }
  }

  lemma {:induction false} CmpSeqEqual(xs: seq<Equation>, ys: seq<Equation>)
    ensures CmpSeq(xs, ys) == Equal <==> xs == ys
    decreases xs
  {
    if xs != [] && ys != [] {
      CmpEqual(xs[0], ys[0]);
      CmpSeqEqual(xs[1..], ys[1..]);
      if xs[0] == ys[0] && xs[1..] == ys[1..] {
        assert xs == [xs[0]] + xs[1..] && ys == [ys[0]] + ys[1..];
      }
    }
  }

  lemma {:induction false} CmpFlip(a: Equation, b: Equation)
    ensures Cmp(b, a) == Flip(Cmp(a, b))
    decreases a
  {
    if Rank(a) == Rank(b) {
      match (a, b)
      case (Var(x), Var(y)) => CmpVariableFlip(x, y);
      case (Negative(x), Negative(y)) => CmpFlip(x, y);
      case (Addition(xs), Addition(ys)) => CmpSeqFlip(xs, ys);
      case (Multiplication(xs), Multiplication(ys)) => CmpSeqFlip(xs, ys);
      case (Division(x1, x2), Division(y1, y2)) => CmpFlip(x1, y1); CmpFlip(x2, y2);
      case (Power(x1, x2), Power(y1, y2)) => CmpFlip(x1, y1); CmpFlip(x2, y2);
      case (Ln(x), Ln(y)) => CmpFlip(x, y);
      case (Equals(x1, x2), Equals(y1, y2)) => CmpFlip(x1, y1); CmpFlip(x2, y2);
      case (Sin(x), Sin(y)) => CmpFlip(x, y);
      case (Cos(x), Cos(y)) => CmpFlip(x, y);
    }
  }

  lemma {:induction false} CmpSeqFlip(xs: seq<Equation>, ys: seq<Equation>)
    ensures CmpSeq(ys, xs) == Flip(CmpSeq(xs, ys))
    decreases xs
  {
    if xs != [] && ys != [] {
      CmpFlip(xs[0], ys[0]);
      CmpSeqFlip(xs[1..], ys[1..]);
    }
  }

  /** Transitivity of a lexicographic pair comparison, given transitivity of its parts. */
  lemma {:induction false} PairTrans(x1: Equation, x2: Equation, y1: Equation, y2: Equation, z1: Equation, z2: Equation)
    requires Then(Cmp(x1, y1), Cmp(x2, y2)) == Less && Then(Cmp(y1, z1), Cmp(y2, z2)) == Less
    requires Cmp(x1, y1) == Less && Cmp(y1, z1) == Less ==> Cmp(x1, z1) == Less
    requires Cmp(x2, y2) == Less && Cmp(y2, z2) == Less ==> Cmp(x2, z2) == Less
    ensures Then(Cmp(x1, z1), Cmp(x2, z2)) == Less
  {
    CmpEqual(x1, y1);
    CmpEqual(y1, z1);
    CmpEqual(x1, z1);
  }

  lemma {:induction false} CmpTrans(a: Equation, b: Equation, c: Equation)
    requires Lt(a, b) && Lt(b, c)
    ensures Lt(a, c)
    decreases a
  {
    if Rank(a) == Rank(b) == Rank(c) {
      match (a, b, c)
      case (Var(x), Var(y), Var(z)) => CmpVariableTrans(x, y, z);
      case (Negative(x), Negative(y), Negative(z)) => CmpTrans(x, y, z);
      case (Addition(xs), Addition(ys), Addition(zs)) => CmpSeqTrans(xs, ys, zs);
      case (Multiplication(xs), Multiplication(ys), Multiplication(zs)) => CmpSeqTrans(xs, ys, zs);
      case (Division(x1, x2), Division(y1, y2), Division(z1, z2)) =>
        if Lt(x1, y1) && Lt(y1, z1) { CmpTrans(x1, y1, z1); }
        if Lt(x2, y2) && Lt(y2, z2) { CmpTrans(x2, y2, z2); }
        PairTrans(x1, x2, y1, y2, z1, z2);
      case (Power(x1, x2), Power(y1, y2), Power(z1, z2)) =>
        if Lt(x1, y1) && Lt(y1, z1) { CmpTrans(x1, y1, z1); }
        if Lt(x2, y2) && Lt(y2, z2) { CmpTrans(x2, y2, z2); }
        PairTrans(x1, x2, y1, y2, z1, z2);
      case (Ln(x), Ln(y), Ln(z)) => CmpTrans(x, y, z);
      case (Equals(x1, x2), Equals(y1, y2), Equals(z1, z2)) =>
        if Lt(x1, y1) && Lt(y1, z1) { CmpTrans(x1, y1, z1); }
        if Lt(x2, y2) && Lt(y2, z2) { CmpTrans(x2, y2, z2); }
        PairTrans(x1, x2, y1, y2, z1, z2);
      case (Sin(x), Sin(y), Sin(z)) => CmpTrans(x, y, z);
      case (Cos(x), Cos(y), Cos(z)) => CmpTrans(x, y, z);
    }
  }

  lemma {:induction false} CmpSeqTrans(xs: seq<Equation>, ys: seq<Equation>, zs: seq<Equation>)
    requires CmpSeq(xs, ys) == Less && CmpSeq(ys, zs) == Less
    ensures CmpSeq(xs, zs) == Less
    decreases xs
  {
    if xs != [] && zs != [] {
      assert ys != [];
      CmpEqual(xs[0], ys[0]);
      CmpEqual(ys[0], zs[0]);
      CmpEqual(xs[0], zs[0]);
      if Lt(xs[0], ys[0]) && Lt(ys[0], zs[0]) {
        CmpTrans(xs[0], ys[0], zs[0]);
      }
      if xs[0] == ys[0] == zs[0] {
        CmpSeqTrans(xs[1..], ys[1..], zs[1..]);
      }
    }
  }

  /** `Lt` is a strict total order: irreflexive, transitive, and any two distinct
      expressions are related one way or the other, never both. */
  lemma {:induction false} StrictTotalOrder(a: Equation, b: Equation, c: Equation)
    ensures !Lt(a, a)
    ensures Lt(a, b) && Lt(b, c) ==> Lt(a, c)
    ensures a != b ==> (Lt(a, b) <==> !Lt(b, a))
    ensures a == b ==> Cmp(a, b) == Equal
  {
    CmpEqual(a, a);
    CmpEqual(a, b);
    CmpFlip(a, b);
    if Lt(a, b) && Lt(b, c) {
      CmpTrans(a, b, c);
    }
  }

  /** Variants are ordered by their declaration order, before any field is looked at. */
  lemma {:induction false} VariantOrder(a: Equation, b: Equation)
    requires Rank(a) < Rank(b)
    ensures Lt(a, b)
  {
  }

  /** Variable kinds: Integer < Rational < Constant < Letter < Vector. Within a kind,
      integers compare by value, a Rational by its (numerator, denominator) pair rather
      than by the number it denotes, and PI comes before E. */
  lemma {:induction false} VariableOrder(x: Variable, y: Variable)
    ensures VariableRank(x) < VariableRank(y) ==> Lt(Var(x), Var(y))
    ensures x.Integer? && y.Integer? ==> (Lt(Var(x), Var(y)) <==> x.n < y.n)
    ensures x.Rational? && y.Rational? ==>
      (Lt(Var(x), Var(y)) <==> x.p < y.p || (x.p == y.p && x.q < y.q))
    ensures x.Constant? && y.Constant? ==> (Lt(Var(x), Var(y)) <==> x.c == PI && y.c == E)
  {
  }

  /** Instances of the order above. */
  lemma {:induction false} VariableOrderExamples()
    ensures Lt(Var(Integer(100)), Var(Rational(0, 1)))
    ensures Lt(Var(Rational(5, 1)), Var(Constant(PI)))
    ensures Lt(Var(Constant(PI)), Var(Constant(E)))
    ensures Lt(Var(Constant(E)), Var(Letter("a")))
    ensures Lt(Var(Letter("z")), Var(Vector("a")))
    ensures Lt(Var(Rational(1, 2)), Var(Rational(2, 4)))
    ensures Lt(Var(Rational(1, 2)), Var(Rational(1, 3)))
  {
  }

  // ---------------------------------------------------------------------------

  /** `get_number_or_none`: the value of a numeric leaf, as a reduced Rational64. */
  function GetNumberOrNone(e: Equation): (r: Result<Option<Rat>>)
    ensures r.Failure? <==> e.Var? && e.v.Rational? && e.v.q == 0
    ensures r.Success? && r.value.Some? <==> e.Var? && (e.v.Integer? || (e.v.Rational? && e.v.q != 0))
    ensures r.Success? && r.value.Some? ==> IsReduced(r.value.value)
    ensures r.Success? && r.value.Some? && e.v.Integer? ==> r.value.value == Rat(e.v.n, 1)
    ensures r.Success? && r.value.Some? && e.v.Rational? ==>
      SameValue(e.v.p, e.v.q, r.value.value.numer, r.value.value.denom)
  {
    match e
    case Var(Integer(n)) => Success(Some(FromInteger(n)))
    case Var(Rational(p, q)) =>
      var r :- NewRat(p, q);
      Success(Some(r))
    case _ => Success(None)
  }

  /** Equality is structural: 1/2 and 2/4 are different expressions with the same number. */
  lemma {:induction false} EqualityIsStructural()
    ensures Var(Rational(1, 2)) != Var(Rational(2, 4))
    ensures GetNumberOrNone(Var(Rational(2, 4))) == Success(Some(Rat(1, 2)))
    ensures GetNumberOrNone(Var(Rational(1, 2))) == GetNumberOrNone(Var(Rational(2, 4)))
  {
    assert Gcd(2, 4) == 2;
    assert Gcd(1, 2) == 1;
  }
}
