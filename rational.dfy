/** Exact fractions (rational.go, and its verbatim copy rat.go under the type
    name Rat). Both Go types are the one datatype `Rat` here, with unbounded
    integer fields. A Go method that returns `(BadRat, err)` returns `Err` here. */
module Rational {
  import opened Wrappers
  import opened IntMath
  import opened Text

  /** The fraction n/d. Arithmetic results are normalized; values read from
      text or built by hand need not be. */
  datatype Rat = Rat(n: int, d: int)

  /** The zero value Go returns together with every error. */
  const BadRat: Rat := Rat(0, 0)

  /** Why Pow or Fact failed. */
  datatype RatError =
    | ZeroToNegative(exponent: int)
    | PowUndefined(base: int, exponent: int)
    | RootUndefined(degree: int, n: int, d: int)
    | FactOfFraction(r: Rat)
    | FactUndefined(r: Rat)

  // ---------------------------------------------------------------------
  // Canonical form and the exact value

  /** The normal form every arithmetic result has: a positive denominator
      coprime with the numerator. */
  predicate Canonical(r: Rat)
  {
    r.d > 0 && Gcd(Abs(r.n), r.d) == Some(1)
  }

  /** The exact value of a fraction with a nonzero denominator (Go's Value
      computes its floating-point approximation). */
  function Value(r: Rat): real
    requires r.d != 0
  {
    r.n as real / r.d as real
  }

  /** Go's Normalize: make the denominator non-negative, then divide both
      parts by their gcd. For 0/0 the gcd is the sentinel MaxInt64, and the
      truncating divisions give 0/0 again. */
  function Normalize(r: Rat): (s: Rat)
  {
    var f := SignFixed(r);
    var g := Gcd(Abs(f.n), f.d);
    GcdPositive(Abs(f.n), f.d);
    var gv := if g.Some? then g.value else MaxInt64;
    Rat(GoQuo(f.n, gv), GoQuo(f.d, gv))
  }

  lemma GcdPositive(a: int, b: int)
    requires a >= 0 && b >= 0
    ensures Gcd(a, b).Some? <==> a > 0 || b > 0
    ensures Gcd(a, b).Some? ==> Gcd(a, b).value > 0
  {
    if a > 0 || b > 0 {
      var qa, qb, u, v := GcdFacts(a, b);
    }
  }

  /** Dividing an exact multiple by a positive divisor. */
  lemma ExactQuo(g: int, q: int)
    requires g > 0
    ensures GoQuo(g * q, g) == q
  {
    ExactDiv(g, Abs(q));
    if q < 0 {
      MulStrictMonotone(g, q, 0);
      assert Abs(g * q) == g * Abs(q);
    } else {
      assert Abs(g * q) == g * Abs(q);
    }
  }

  lemma ExactDiv(g: int, m: nat)
    requires g > 0
    ensures (g * m) / g == m
  {
    var a := g * m;
    var k := a / g;
    assert g * (m - k) == a % g;
    if m - k >= 1 {
      MulMonotone(g, 1, m - k);
    } else if m - k <= -1 {
      MulMonotone(g, m - k, -1);
    }
  }

  /** The sign-corrected numerator and denominator Normalize divides. */
  function SignFixed(r: Rat): Rat
  {
    if r.d < 0 then Rat(-r.n, -r.d) else r
  }

  /** The normal form is the sign-fixed fraction divided by its gcd. */
  lemma NormalizeByGcd(r: Rat, g: int, a: int, b: int)
    requires r.d != 0
    requires Gcd(Abs(SignFixed(r).n), SignFixed(r).d) == Some(g)
    requires SignFixed(r).n == g * a && SignFixed(r).d == g * b
    ensures Normalize(r) == Rat(a, b)
  {
    GcdPositive(Abs(SignFixed(r).n), SignFixed(r).d);
    ExactQuo(g, a);
    ExactQuo(g, b);
  }

  /** Dividing by the gcd leaves a coprime pair with a positive second part. */
  lemma QuotientsCoprime(a: int, b: int, g: int, qa: int, qb: int, u: int, v: int)
    requires a >= 0 && b > 0 && g > 0
    requires a == g * qa && b == g * qb && u * a + v * b == g
    ensures qb > 0 && qa >= 0
    ensures Gcd(qa, qb) == Some(1)
  {
    if qb <= 0 { MulMonotone(g, qb, 0); }
    if qa < 0 { MulMonotone(g, qa, 0); }
    CombineMultiples(g, qa, qb, u, v);
    CancelFactor(g, u * qa + v * qb, 1);
    GcdOneFromBezout(qa, qb, u, v);
  }

  /** Normalize divides the sign-fixed fraction by a positive g and leaves a
      coprime pair. */
  lemma NormalizeQuotients(r: Rat) returns (g: int, a: int, b: int)
    requires r.d != 0
    ensures g > 0 && SignFixed(r).n == g * a && SignFixed(r).d == g * b
    ensures Normalize(r) == Rat(a, b)
    ensures b > 0 && Gcd(Abs(a), b) == Some(1)
  {
    var f := SignFixed(r);
    var qa, qb, u, v := GcdFacts(Abs(f.n), f.d);
    g := Gcd(Abs(f.n), f.d).value;
    QuotientsCoprime(Abs(f.n), f.d, g, qa, qb, u, v);
    a := SignedQuotient(f.n, g, qa);
    b := qb;
    NormalizeByGcd(r, g, a, b);
  }

  lemma SignedQuotient(n: int, g: int, q: int) returns (a: int)
    requires g > 0 && Abs(n) == g * q
    ensures n == g * a && Abs(a) == q
    ensures n < 0 ==> a == -q
    ensures n >= 0 ==> a == q
  {
    a := if n < 0 then -q else q;
    if n < 0 {
      assert g * a == -(g * q);
    }
    if q < 0 && g > 0 { MulMonotone(g, q, -1); }
  }

  /** On a nonzero denominator Normalize yields the canonical fraction with
      the same value. */
  lemma NormalizeCanonical(r: Rat)
    requires r.d != 0
    ensures Canonical(Normalize(r))
    ensures Value(Normalize(r)) == Value(r)
  {
    var g, a, b := NormalizeQuotients(r);
    CancelValue(g, a, b);
    SignFixedValue(r);
  }

  lemma SignFixedValue(r: Rat)
    requires r.d != 0
    ensures SignFixed(r).d > 0 && Value(SignFixed(r)) == Value(r)
  {
    if r.d < 0 {
      assert (-r.n) as real / (-r.d) as real == r.n as real / r.d as real;
    }
  }

  /** g*a / g*b == a / b as real numbers. */
  lemma CancelValue(g: int, a: int, b: int)
    requires g > 0 && b > 0
    ensures (g * a) as real / (g * b) as real == a as real / b as real
  {
    var x := a as real / b as real;
    assert a as real == x * b as real;
    assert (g * a) as real == g as real * a as real;
    assert (g * b) as real == g as real * b as real;
    assert (g * a) as real == x * (g * b) as real;
  }

  /** A canonical fraction is its own normal form, so Normalize is
      idempotent on every nonzero denominator. */
  lemma NormalizeOfCanonical(r: Rat)
    requires Canonical(r)
    ensures Normalize(r) == r
  {
    ExactQuo(1, r.n);
    ExactQuo(1, r.d);
  }

  lemma NormalizeIdempotent(r: Rat)
    requires r.d != 0
    ensures Normalize(Normalize(r)) == Normalize(r)
  {
    NormalizeCanonical(r);
    NormalizeOfCanonical(Normalize(r));
  }

  /** Cross-multiplication: equal values mean equal cross products. */
  lemma CrossProducts(a: Rat, b: Rat)
    requires a.d != 0 && b.d != 0
    ensures Value(a) == Value(b) <==> a.n * b.d == b.n * a.d
  {
    var x, y := Value(a), Value(b);
    assert a.n as real == x * a.d as real;
    assert b.n as real == y * b.d as real;
    assert (a.n * b.d) as real == x * (a.d as real * b.d as real);
    assert (b.n * a.d) as real == y * (a.d as real * b.d as real);
    assert a.d as real * b.d as real != 0.0;
  }

  /** If p/q is in lowest terms and p*y == x*q, then q divides y. */
  lemma CoprimeDivides(p: int, q: int, x: int, y: int) returns (k: int)
    requires q > 0 && Gcd(Abs(p), q) == Some(1)
    requires p * y == x * q
    ensures y == q * k
  {
    var qa, qb, u, v := GcdFacts(Abs(p), q);
    var u' := if p < 0 then -u else u;
    assert u' * p == u * Abs(p);
    k := u' * x + v * y;
    DividesByBezout(p, q, x, y, u', v);
  }

  lemma DividesByBezout(p: int, q: int, x: int, y: int, u: int, v: int)
    requires u * p + v * q == 1 && p * y == x * q
    ensures y == q * (u * x + v * y)
  {
    calc {
      q * (u * x + v * y);
      u * (x * q) + v * (q * y);
      { assert u * (x * q) == u * (p * y); }
      u * (p * y) + v * (q * y);
      (u * p + v * q) * y;
      y;
    }
  }

  /** Canonical fractions with equal values are identical. */
  lemma CanonicalUnique(a: Rat, b: Rat)
    requires Canonical(a) && Canonical(b)
    requires Value(a) == Value(b)
    ensures a == b
  {
    CrossProducts(a, b);
    SameLowestTerms(a.n, a.d, b.n, b.d);
  }

  lemma SameLowestTerms(an: int, ad: int, bn: int, bd: int)
    requires ad > 0 && Gcd(Abs(an), ad) == Some(1)
    requires bd > 0 && Gcd(Abs(bn), bd) == Some(1)
    requires an * bd == bn * ad
    ensures an == bn && ad == bd
  {
    SameDenominator(an, ad, bn, bd);
    assert ad * an == ad * bn;
    CancelFactor(ad, an, bn);
  }

  /** Equal fractions in lowest terms have the same denominator. */
  lemma SameDenominator(an: int, ad: int, bn: int, bd: int)
    requires ad > 0 && Gcd(Abs(an), ad) == Some(1)
    requires bd > 0 && Gcd(Abs(bn), bd) == Some(1)
    requires an * bd == bn * ad
    ensures ad == bd
  {
    var k1 := CoprimeDivides(an, ad, bn, bd);
    assert bn * ad == an * bd;
    var k2 := CoprimeDivides(bn, bd, an, ad);
    MutualDivisors(ad, bd, k1, k2);
  }

  /** Positive numbers that divide each other are equal. */
  lemma MutualDivisors(x: int, y: int, k1: int, k2: int)
    requires x > 0 && y > 0 && y == x * k1 && x == y * k2
    ensures x == y
  {
    assert x * 1 == x * (k1 * k2);
    CancelFactor(x, 1, k1 * k2);
    if k1 <= 0 { MulMonotone(x, k1, 0); }
    UnitFactor(k1, k2);
  }

  /** Every integer k/1 is canonical. */
  lemma IntegerCanonical(k: int)
    ensures Canonical(Rat(k, 1))
  {
    if k != 0 {
      assert GoRem(Abs(k), 1) == 0;
    }
  }

  // ---------------------------------------------------------------------
  // Arithmetic

  /** Go's Add: integers add directly, anything else is cross-multiplied
      and normalized. */
  function Add(a: Rat, b: Rat): Rat
  {
    if a.d == 1 && b.d == 1 then Rat(a.n + b.n, 1)
    else Normalize(Rat(a.n * b.d + b.n * a.d, a.d * b.d))
  }

  /** Go's Sub: adds the fraction with the negated numerator. */
  function Sub(a: Rat, b: Rat): Rat
  {
    Add(a, Rat(-b.n, b.d))
  }

  /** Go's Mul: the normalized product. */
  function Mul(a: Rat, b: Rat): Rat
  {
    Normalize(Rat(a.n * b.n, a.d * b.d))
  }

  /** Go's Div: the normalized cross product. A zero divisor is not
      rejected here (Eval checks it first). */
  function Div(a: Rat, b: Rat): Rat
  {
    Normalize(Rat(a.n * b.d, a.d * b.n))
  }

  /** Go's Minus: negate and normalize. */
  function Minus(a: Rat): Rat
  {
    Normalize(Rat(-a.n, a.d))
  }

  lemma ProductNonzero(x: int, y: int)
    requires x != 0 && y != 0
    ensures x * y != 0
  {
    if x > 0 && y > 0 { MulStrictMonotone(x, 0, y); }
    if x > 0 && y < 0 { MulStrictMonotone(x, y, 0); }
    if x < 0 && y > 0 { MulStrictMonotone(y, x, 0); }
    if x < 0 && y < 0 { MulStrictMonotone(-x, y, 0); }
  }

  lemma SumValue(an: int, ad: int, bn: int, bd: int)
    requires ad != 0 && bd != 0
    ensures (an * bd + bn * ad) as real / (ad * bd) as real
         == an as real / ad as real + bn as real / bd as real
  {
    var x, y := an as real / ad as real, bn as real / bd as real;
    assert an as real == x * ad as real;
    assert bn as real == y * bd as real;
    ProductNonzero(ad, bd);
    assert (an * bd + bn * ad) as real == (x + y) * (ad as real * bd as real);
  }

  lemma ProductValue(an: int, ad: int, bn: int, bd: int)
    requires ad != 0 && bd != 0
    ensures (an * bn) as real / (ad * bd) as real
         == (an as real / ad as real) * (bn as real / bd as real)
  {
    var x, y := an as real / ad as real, bn as real / bd as real;
    assert an as real == x * ad as real;
    assert bn as real == y * bd as real;
    ProductNonzero(ad, bd);
    assert (an * bn) as real == (x * y) * (ad as real * bd as real);
  }

  lemma QuotientValue(an: int, ad: int, bn: int, bd: int)
    requires ad != 0 && bd != 0 && bn != 0
    ensures (an * bd) as real / (ad * bn) as real
         == (an as real / ad as real) / (bn as real / bd as real)
  {
    var x, y := an as real / ad as real, bn as real / bd as real;
    assert an as real == x * ad as real;
    assert bn as real == y * bd as real;
    ProductNonzero(ad, bn);
    assert y != 0.0;
    assert (an * bd) as real == (x / y) * (ad as real * bn as real);
  }

  /** Add is exact: its canonical result has the sum of the values. */
  lemma AddCorrect(a: Rat, b: Rat)
    requires a.d != 0 && b.d != 0
    ensures Canonical(Add(a, b))
    ensures Value(Add(a, b)) == Value(a) + Value(b)
  {
    if a.d == 1 && b.d == 1 {
      IntegerCanonical(a.n + b.n);
    } else {
      ProductNonzero(a.d, b.d);
      NormalizeCanonical(Rat(a.n * b.d + b.n * a.d, a.d * b.d));
      SumValue(a.n, a.d, b.n, b.d);
    }
  }

  lemma SubCorrect(a: Rat, b: Rat)
    requires a.d != 0 && b.d != 0
    ensures Canonical(Sub(a, b))
    ensures Value(Sub(a, b)) == Value(a) - Value(b)
  {
    AddCorrect(a, Rat(-b.n, b.d));
    NegatedValue(b.n, b.d);
  }

  lemma NegatedValue(n: int, d: int)
    requires d != 0
    ensures (-n) as real / d as real == -(n as real / d as real)
  {
  }

  lemma MulCorrect(a: Rat, b: Rat)
    requires a.d != 0 && b.d != 0
    ensures Canonical(Mul(a, b))
    ensures Value(Mul(a, b)) == Value(a) * Value(b)
  {
    ProductNonzero(a.d, b.d);
    NormalizeCanonical(Rat(a.n * b.n, a.d * b.d));
    ProductValue(a.n, a.d, b.n, b.d);
  }

  lemma DivCorrect(a: Rat, b: Rat)
    requires a.d != 0 && b.d != 0 && b.n != 0
    ensures Canonical(Div(a, b))
    ensures Value(b) != 0.0 && Value(Div(a, b)) == Value(a) / Value(b)
  {
    ProductNonzero(a.d, b.n);
    NormalizeCanonical(Rat(a.n * b.d, a.d * b.n));
    QuotientValue(a.n, a.d, b.n, b.d);
  }

  lemma MinusCorrect(a: Rat)
    requires a.d != 0
    ensures Canonical(Minus(a))
    ensures Value(Minus(a)) == -Value(a)
  {
    NormalizeCanonical(Rat(-a.n, a.d));
    NegatedValue(a.n, a.d);
  }

  /** On a canonical fraction Minus only flips the numerator, so it is an
      involution. */
  lemma MinusOfCanonical(a: Rat)
    requires Canonical(a)
    ensures Minus(a) == Rat(-a.n, a.d)
    ensures Minus(Minus(a)) == a
  {
    assert Abs(-a.n) == Abs(a.n);
    NormalizeOfCanonical(Rat(-a.n, a.d));
    NormalizeOfCanonical(a);
  }

  // ---------------------------------------------------------------------
  // Predicates

  /** Go's Negative, judged on the normalized form. */
  predicate Negative(a: Rat)
  {
    Normalize(a).n < 0
  }

  /** Go's Integer (IsInteger), judged on the normalized form. */
  predicate Integer(a: Rat)
  {
    Normalize(a).d == 1
  }

  /** Go's Even: a normalized integer with an even numerator. */
  predicate Even(a: Rat)
  {
    var c := Normalize(a);
    c.d == 1 && GoRem(c.n, 2) == 0
  }

  /** Go's Zero looks at the raw numerator. */
  predicate Zero(a: Rat)
  {
    a.n == 0
  }

  /** Go's Equal compares normalized forms. */
  predicate Equal(a: Rat, b: Rat)
  {
    Normalize(a) == Normalize(b)
  }

  lemma QuotientSign(p: int, q: int)
    requires q != 0
    ensures p as real / q as real < 0.0 <==> (p < 0 && q > 0) || (p > 0 && q < 0)
    ensures p as real / q as real == 0.0 <==> p == 0
  {
    var x := p as real / q as real;
    assert p as real == x * q as real;
  }

  lemma NegativeMeans(a: Rat)
    requires a.d != 0
    ensures Negative(a) <==> Value(a) < 0.0
  {
    NormalizeCanonical(a);
    QuotientSign(Normalize(a).n, Normalize(a).d);
  }

  lemma ZeroMeans(a: Rat)
    requires a.d != 0
    ensures Zero(a) <==> Value(a) == 0.0
  {
    QuotientSign(a.n, a.d);
  }

  lemma EqualMeans(a: Rat, b: Rat)
    requires a.d != 0 && b.d != 0
    ensures Equal(a, b) <==> Value(a) == Value(b)
  {
    NormalizeCanonical(a);
    NormalizeCanonical(b);
    if Value(a) == Value(b) {
      CanonicalUnique(Normalize(a), Normalize(b));
    }
  }

  /** A fraction whose value is the integer k normalizes to k/1. */
  lemma NormalizeOfIntegerValue(a: Rat, k: int)
    requires a.d != 0 && Value(a) == k as real
    ensures Normalize(a) == Rat(k, 1)
  {
    NormalizeCanonical(a);
    IntegerCanonical(k);
    CanonicalUnique(Normalize(a), Rat(k, 1));
  }

  lemma IntegerMeans(a: Rat)
    requires a.d != 0
    ensures Integer(a) <==> Value(a) == Value(a).Floor as real
  {
    NormalizeCanonical(a);
    if Value(a) == Value(a).Floor as real {
      NormalizeOfIntegerValue(a, Value(a).Floor);
    }
  }

  lemma EvenMeans(a: Rat)
    requires a.d != 0
    ensures Even(a) <==> (Value(a) / 2.0).Floor as real == Value(a) / 2.0
  {
    if Even(a) {
      NormalizeCanonical(a);
      var c := Normalize(a);
      assert Value(a) == c.n as real;
      EvenHalf(c.n);
    }
    if (Value(a) / 2.0).Floor as real == Value(a) / 2.0 {
      var m := (Value(a) / 2.0).Floor;
      assert Value(a) == (2 * m) as real;
      NormalizeOfIntegerValue(a, 2 * m);
      ExactQuo(2, m);
    }
  }

  lemma EvenHalf(n: int)
    requires GoRem(n, 2) == 0
    ensures (n as real / 2.0).Floor as real == n as real / 2.0
  {
    var q := GoQuo(n, 2);
    assert n == 2 * q;
    assert n as real / 2.0 == q as real;
  }

  // ---------------------------------------------------------------------
  // Order

  /** Go's Less, as written: compares the cross products and flips the
      answer when the denominators have opposite signs. */
  predicate Less(a: Rat, b: Rat)
  {
    var x := a.n * b.d < a.d * b.n;
    if a.d * b.d > 0 then x else !x
  }

  /** The strict order Less evidently intends: on opposite-signed
      denominators the comparison of the cross products is reversed rather
      than negated, so equal values are never ordered. */
  predicate LessExact(a: Rat, b: Rat)
  {
    var x := a.n * b.d < a.d * b.n;
    if a.d * b.d > 0 then x else a.n * b.d > a.d * b.n
  }

  lemma DifferenceSign(a: Rat, b: Rat)
    requires a.d != 0 && b.d != 0
    ensures Value(a) < Value(b) <==>
              (a.n * b.d - b.n * a.d < 0 && a.d * b.d > 0) || (a.n * b.d - b.n * a.d > 0 && a.d * b.d < 0)
  {
    SumValue(a.n, a.d, -b.n, b.d);
    NegatedValue(b.n, b.d);
    ProductNonzero(a.d, b.d);
    assert a.n * b.d + -b.n * a.d == a.n * b.d - b.n * a.d;
    QuotientSign(a.n * b.d - b.n * a.d, a.d * b.d);
  }

  /** With positive denominators Go's Less is the order of the values. */
  lemma LessMeans(a: Rat, b: Rat)
    requires a.d > 0 && b.d > 0
    ensures Less(a, b) <==> Value(a) < Value(b)
  {
    DifferenceSign(a, b);
    MulStrictMonotone(a.d, 0, b.d);
    assert a.d * b.n == b.n * a.d;
  }

  /** The corrected order agrees with the values on every nonzero
      denominator. */
  lemma LessExactMeans(a: Rat, b: Rat)
    requires a.d != 0 && b.d != 0
    ensures LessExact(a, b) <==> Value(a) < Value(b)
  {
    DifferenceSign(a, b);
    ProductNonzero(a.d, b.d);
    assert a.d * b.n == b.n * a.d;
  }

  /** Go's Less calls 1/2 both less and greater than -1/-2, which has the
      same value. */
  lemma LessAsWrittenIsNotStrict()
    ensures Value(Rat(1, 2)) == Value(Rat(-1, -2))
    ensures Less(Rat(1, 2), Rat(-1, -2)) && Less(Rat(-1, -2), Rat(1, 2))
    ensures !LessExact(Rat(1, 2), Rat(-1, -2)) && !LessExact(Rat(-1, -2), Rat(1, 2))
  {
    NegatedValue(-1, -2);
  }

  // ---------------------------------------------------------------------
  // Factorial

  /** Go's Fact: only integers; 1 and 2 are returned as they are, every
      other argument goes through the factorial table. */
  function Fact(r: Rat): Result<Rat, RatError>
  {
    if r.d != 1 then Err(FactOfFraction(r))
    else if r.n == 1 || r.n == 2 then Ok(r)
    else
      var f := IntMath.Fact(r.n);
      if f.None? then Err(FactUndefined(r)) else Ok(Rat(f.value, 1))
  }

  /** Fact is defined exactly on the integers 0..MaxFactorial, where it is
      the factorial. */
  lemma FactCorrect(r: Rat)
    ensures Fact(r).Ok? <==> r.d == 1 && 0 <= r.n <= MaxFactorial
    ensures Fact(r).Ok? ==> Fact(r).value == Rat(Factorial(r.n), 1)
    ensures r.d != 1 ==> Fact(r) == Err(FactOfFraction(r))
  {
    if r.d == 1 && (r.n == 1 || r.n == 2) {
      assert Factorial(1) == 1;
      assert Factorial(2) == 2;
    }
  }

  // ---------------------------------------------------------------------
  // Powers and roots

  /** (n/d)^k computed on reals. */
  function RealPow(x: real, k: nat): real
  {
    if k == 0 then 1.0 else x * RealPow(x, k - 1)
  }

  /** Go's Pow. The exponent is normalized; a negative exponent inverts the
      base (and fails for a zero base); then numerator and denominator are
      raised to the exponent's numerator, and for a fractional exponent both
      must have an exact root of the exponent's denominator. */
  function Pow(r: Rat, e: Rat): Result<Rat, RatError>
    decreases if Normalize(e).n < 0 then 1 else 0
  {
    var e1 := Normalize(e);
    if e1.n < 0 then
      if r.n == 0 then Err(ZeroToNegative(e1.n))
      else
        NegatedExponent(e);
        Pow(Rat(r.d, r.n), Minus(e1))
    else
      var n1 := IntMath.Pow(r.n, e1.n);
      if n1.None? then Err(PowUndefined(r.n, e1.n))
      else
        var d1 := IntMath.Pow(r.d, e1.n);
        if d1.None? then Err(PowUndefined(r.d, e1.n))
        else if e1.d == 1 then Ok(Normalize(Rat(n1.value, d1.value)))
        else
          var n2 := Root(n1.value, e1.d);
          var d2 := Root(d1.value, e1.d);
          if n2.Some? && d2.Some? then Ok(Normalize(Rat(n2.value, d2.value)))
          else Err(RootUndefined(e1.d, n1.value, d1.value))
  }

  /** Go's Sqrt: the power 1/2. */
  function Sqrt(r: Rat): Result<Rat, RatError>
  {
    Pow(r, Rat(1, 2))
  }

  lemma NormalizeZeroDenominator(n: int)
    requires n != 0
    ensures Normalize(Rat(n, 0)) == Rat(if n < 0 then -1 else 1, 0)
  {
    var s := if n < 0 then -1 else 1;
    assert Abs(n) == Abs(n) * 1;
    ExactQuo(Abs(n), s);
    assert n == Abs(n) * s;
    ExactQuo(Abs(n), 0);
  }

  /** Negating a negative normalized exponent gives a positive one, so Pow
      recurses at most once. */
  lemma NegatedExponent(e: Rat)
    requires Normalize(e).n < 0
    ensures Normalize(Minus(Normalize(e))).n > 0
  {
    var e1 := Normalize(e);
    if e.d != 0 {
      NormalizeCanonical(e);
      MinusOfCanonical(e1);
      MinusCorrect(e1);
      NormalizeOfCanonical(Minus(e1));
    } else {
      NormalizeZeroDenominator(e.n);
      NormalizeZeroDenominator(1);
    }
  }

  lemma {:induction false} RealPowQuotient(a: int, b: int, k: nat)
    requires b != 0
    ensures IntPow(b, k) != 0
    ensures RealPow(a as real / b as real, k) == IntPow(a, k) as real / IntPow(b, k) as real
  {
    IntPowNonzero(b, k);
    if k > 0 {
      RealPowQuotient(a, b, k - 1);
      IntPowNonzero(b, k - 1);
      ProductValue(a, b, IntPow(a, k - 1), IntPow(b, k - 1));
    }
  }

  /** For a canonical exponent p/q with p >= 0, a successful Pow returns a
      canonical s with s^q == r^p: the exact q-th root of r^p. */
  lemma PowCorrect(r: Rat, e: Rat)
    requires r.d != 0 && Canonical(e) && e.n >= 0
    requires Pow(r, e).Ok?
    ensures Canonical(Pow(r, e).value)
    ensures RealPow(Value(Pow(r, e).value), e.d) == RealPow(Value(r), e.n)
  {
    NormalizeOfCanonical(e);
    var n1 := IntPow(r.n, e.n);
    var d1 := IntPow(r.d, e.n);
    RealPowQuotient(r.n, r.d, e.n);
    if e.d == 1 {
      NormalizeCanonical(Rat(n1, d1));
    } else {
      var n2 := Root(n1, e.d).value;
      var d2 := Root(d1, e.d).value;
      if d2 == 0 { IntPowOfZeroOrOne(0, e.d); }
      NormalizeCanonical(Rat(n2, d2));
      RealPowQuotient(n2, d2, e.d);
    }
  }

  /** For a canonical exponent p/q with p >= 0 and q > 1, Pow succeeds
      exactly when n^p and d^p pass the integer pow and both have an exact
      integer q-th root, and it then normalizes the quotient of the roots
      that Root picks (the ones with the sign of n^p and d^p). */
  lemma PowFractionalExponent(r: Rat, e: Rat)
    requires Canonical(e) && e.n >= 0 && e.d > 1
    ensures Pow(r, e).Ok? <==>
      IntMath.Pow(r.n, e.n).Some? && IntMath.Pow(r.d, e.n).Some?
      && Root(IntPow(r.n, e.n), e.d).Some? && Root(IntPow(r.d, e.n), e.d).Some?
    ensures Pow(r, e).Ok? ==>
      Pow(r, e).value == Normalize(Rat(Root(IntPow(r.n, e.n), e.d).value, Root(IntPow(r.d, e.n), e.d).value))
  {
    NormalizeOfCanonical(e);
  }

  /** For an even q the root is the non-negative one: a successful power
      to p/q is never negative. */
  lemma PowEvenRootNonnegative(r: Rat, e: Rat)
    requires r.d != 0 && Canonical(e) && e.n >= 0 && e.d > 1 && e.d % 2 == 0
    requires Pow(r, e).Ok?
    ensures Pow(r, e).value.n >= 0
  {
    PowFractionalExponent(r, e);
    var n2 := Root(IntPow(r.n, e.n), e.d).value;
    var d2 := Root(IntPow(r.d, e.n), e.d).value;
    IntPowNonzero(r.d, e.n);
    if d2 == 0 { IntPowOfZeroOrOne(0, e.d); }
    NormalizeNonnegative(Rat(n2, d2));
  }

  /** Pow with a whole exponent k >= 0 succeeds exactly when n^k and d^k
      pass the integer pow, and then normalizes n^k/d^k. */
  lemma PowWholeExponent(r: Rat, k: int)
    requires k >= 0
    ensures Pow(r, Rat(k, 1)).Ok? <==> IntMath.Pow(r.n, k).Some? && IntMath.Pow(r.d, k).Some?
    ensures Pow(r, Rat(k, 1)).Ok? ==>
              Pow(r, Rat(k, 1)).value == Normalize(Rat(IntPow(r.n, k), IntPow(r.d, k)))
  {
    IntegerCanonical(k);
    NormalizeOfCanonical(Rat(k, 1));
  }

  /** A negative exponent fails for a zero base and otherwise inverts the
      base and negates the exponent. */
  lemma PowNegativeExponent(r: Rat, e: Rat)
    requires Canonical(e) && e.n < 0
    ensures r.n == 0 ==> Pow(r, e) == Err(ZeroToNegative(e.n))
    ensures r.n != 0 ==> Pow(r, e) == Pow(Rat(r.d, r.n), Rat(-e.n, e.d))
  {
    NormalizeOfCanonical(e);
    MinusOfCanonical(e);
  }

  /** A successful square root of a canonical fraction is canonical,
      non-negative, and squares back to the fraction. */
  lemma SqrtIsRoot(r: Rat)
    requires Canonical(r) && Sqrt(r).Ok?
    ensures Canonical(Sqrt(r).value) && Sqrt(r).value.n >= 0
    ensures Mul(Sqrt(r).value, Sqrt(r).value) == r
  {
    assert Normalize(Rat(1, 2)) == Rat(1, 2);
    var n2 := Root(r.n, 2).value;
    var d2 := Root(r.d, 2).value;
    RootTwoSound(r.n);
    RootTwoSound(r.d);
    if d2 <= 0 { MulMonotone(-d2, d2, 0); }
    assert Abs(r.n) == r.n;
    CoprimeOfSquares(n2, d2);
    NormalizeOfCanonical(Rat(n2, d2));
    NormalizeOfCanonical(r);
  }

  /** Every canonical s >= 0 is the square root of its square. */
  lemma SqrtOfSquare(s: Rat)
    requires Canonical(s) && s.n >= 0
    ensures Sqrt(Mul(s, s)) == Ok(s)
  {
    assert Abs(s.n) == s.n;
    CoprimeSquares(s.n, s.d);
    MulStrictMonotone(s.d, 0, s.d);
    NormalizeOfCanonical(Rat(s.n * s.n, s.d * s.d));
    assert Normalize(Rat(1, 2)) == Rat(1, 2);
    RootOfSquare(s.n);
    RootOfSquare(s.d);
    SquareNotMaxInt64(s.n);
    SquareNotMaxInt64(s.d);
    NormalizeOfCanonical(s);
  }

  /** A successful power of a fraction with a nonzero denominator to a
      canonical exponent is canonical. */
  lemma PowCanonical(r: Rat, e: Rat)
    requires r.d != 0 && Canonical(e) && Pow(r, e).Ok?
    ensures Canonical(Pow(r, e).value)
  {
    if e.n >= 0 {
      PowCorrect(r, e);
    } else {
      PowNegativeExponent(r, e);
      assert Abs(-e.n) == Abs(e.n);
      PowCorrect(Rat(r.d, r.n), Rat(-e.n, e.d));
    }
  }

  /** A whole even exponent does not see the sign of either part. */
  lemma PowEvenIgnoresSigns(a: int, b: int, k: int)
    requires k >= 0 && GoRem(k, 2) == 0
    ensures Pow(Rat(-a, b), Rat(k, 1)).Ok? == Pow(Rat(a, b), Rat(k, 1)).Ok?
    ensures Pow(Rat(-a, b), Rat(k, 1)).Ok? ==> Pow(Rat(-a, b), Rat(k, 1)) == Pow(Rat(a, b), Rat(k, 1))
    ensures Pow(Rat(a, -b), Rat(k, 1)).Ok? == Pow(Rat(a, b), Rat(k, 1)).Ok?
    ensures Pow(Rat(a, -b), Rat(k, 1)).Ok? ==> Pow(Rat(a, -b), Rat(k, 1)) == Pow(Rat(a, b), Rat(k, 1))
  {
    IntegerCanonical(k);
    NormalizeOfCanonical(Rat(k, 1));
    PowEvenSymmetric(a, k);
    PowEvenSymmetric(b, k);
  }

  /** An even exponent does not see the sign of the base: negating a
      canonical base changes neither success nor the result. */
  lemma PowOfMinusEven(r: Rat, e: Rat)
    requires Canonical(r) && Canonical(e) && Even(e)
    ensures Pow(Minus(r), e).Ok? <==> Pow(r, e).Ok?
    ensures Pow(Minus(r), e).Ok? ==> Pow(Minus(r), e) == Pow(r, e)
  {
    MinusOfCanonical(r);
    NormalizeOfCanonical(e);
    assert e == Rat(e.n, 1);
    if e.n >= 0 {
      PowEvenIgnoresSigns(r.n, r.d, e.n);
    } else if r.n != 0 {
      GoRemNegate(e.n, 2);
      PowNegativeExponent(r, e);
      PowNegativeExponent(Rat(-r.n, r.d), e);
      PowEvenIgnoresSigns(r.d, r.n, -e.n);
    } else {
      PowNegativeExponent(r, e);
      PowNegativeExponent(Rat(-r.n, r.d), e);
    }
  }

  // ---------------------------------------------------------------------
  // Algebraic laws

  lemma NormalizeCross(x: Rat)
    requires x.d != 0
    ensures Normalize(x).n * x.d == x.n * Normalize(x).d
  {
    NormalizeCanonical(x);
    CrossProducts(Normalize(x), x);
  }

  lemma NormalizeRespects(x: Rat, y: Rat)
    requires x.d != 0 && y.d != 0
    requires x.n * y.d == y.n * x.d
    ensures Normalize(x) == Normalize(y)
  {
    NormalizeCanonical(x);
    NormalizeCanonical(y);
    CrossProducts(x, y);
    CanonicalUnique(Normalize(x), Normalize(y));
  }

  lemma AddNormal(a: Rat, b: Rat)
    requires a.d != 0 && b.d != 0
    ensures Add(a, b) == Normalize(Rat(a.n * b.d + b.n * a.d, a.d * b.d))
  {
    if a.d == 1 && b.d == 1 {
      IntegerCanonical(a.n + b.n);
      NormalizeOfCanonical(Rat(a.n + b.n, 1));
    }
  }

  lemma ScaleProduct(p: int, q: int, r: int, s: int, k: int, l: int)
    requires p * s == r * q
    ensures (p * k) * (s * l) == (r * k) * (q * l)
  {
    calc {
      (p * k) * (s * l);
      (p * s) * (k * l);
      (r * q) * (k * l);
      (r * k) * (q * l);
    }
  }

  lemma ProductAssoc(x: int, y: int, z: int)
    ensures x * (y * z) == (x * y) * z
  {
  }

  lemma ProductComm(x: int, y: int)
    ensures x * y == y * x
  {
  }

  lemma MulComm(a: Rat, b: Rat)
    ensures Mul(a, b) == Mul(b, a)
  {
    assert a.n * b.n == b.n * a.n;
    assert a.d * b.d == b.d * a.d;
  }

  lemma MulNormLeft(x: Rat, c: Rat)
    requires x.d != 0 && c.d != 0
    ensures Mul(Normalize(x), c) == Normalize(Rat(x.n * c.n, x.d * c.d))
  {
    var m := Normalize(x);
    NormalizeCanonical(x);
    NormalizeCross(x);
    ProductNonzero(m.d, c.d);
    ProductNonzero(x.d, c.d);
    ScaleProduct(m.n, m.d, x.n, x.d, c.n, c.d);
    NormalizeRespects(Rat(m.n * c.n, m.d * c.d), Rat(x.n * c.n, x.d * c.d));
  }

  lemma MulNormRight(c: Rat, x: Rat)
    requires x.d != 0 && c.d != 0
    ensures Mul(c, Normalize(x)) == Normalize(Rat(c.n * x.n, c.d * x.d))
  {
    MulNormLeft(x, c);
    MulComm(c, Normalize(x));
    ProductComm(c.n, x.n);
    ProductComm(c.d, x.d);
  }

  lemma AddAssoc(a: Rat, b: Rat, c: Rat)
    requires a.d != 0 && b.d != 0 && c.d != 0
    ensures Add(a, Add(b, c)) == Add(Add(a, b), c)
  {
    AddCorrect(b, c);
    AddCorrect(a, Add(b, c));
    AddCorrect(a, b);
    AddCorrect(Add(a, b), c);
    CanonicalUnique(Add(a, Add(b, c)), Add(Add(a, b), c));
  }

  lemma MulAssoc(a: Rat, b: Rat, c: Rat)
    requires a.d != 0 && b.d != 0 && c.d != 0
    ensures Mul(a, Mul(b, c)) == Mul(Mul(a, b), c)
  {
    ProductNonzero(a.d, b.d);
    ProductNonzero(b.d, c.d);
    MulNormRight(a, Rat(b.n * c.n, b.d * c.d));
    MulNormLeft(Rat(a.n * b.n, a.d * b.d), c);
    ProductAssoc(a.n, b.n, c.n);
    ProductAssoc(a.d, b.d, c.d);
  }

  lemma NormalizeNegate(x: Rat)
    requires x.d != 0
    ensures Minus(Normalize(x)) == Normalize(Rat(-x.n, x.d))
  {
    var m := Normalize(x);
    NormalizeCanonical(x);
    NormalizeCross(x);
    NegateCross(m.n, m.d, x.n, x.d);
    NormalizeRespects(Rat(-m.n, m.d), Rat(-x.n, x.d));
  }

  lemma NegateCross(p: int, q: int, r: int, s: int)
    requires p * s == r * q
    ensures (-p) * s == (-r) * q
  {
  }

  lemma NormalizeNonzero(x: Rat)
    requires x.d != 0 && x.n != 0
    ensures Normalize(x).n != 0
  {
    NormalizeCanonical(x);
    NormalizeCross(x);
    ProductNonzero(x.n, Normalize(x).d);
  }

  lemma NormalizeNonnegative(x: Rat)
    requires x.d > 0 && x.n >= 0
    ensures Normalize(x).n >= 0
  {
    var g, a, b := NormalizeQuotients(x);
  }

  lemma AddCanonical(a: Rat, b: Rat)
    requires a.d != 0 && b.d != 0
    ensures Canonical(Add(a, b))
  {
    AddCorrect(a, b);
  }

  lemma MulCanonical(a: Rat, b: Rat)
    requires a.d != 0 && b.d != 0
    ensures Canonical(Mul(a, b))
  {
    MulCorrect(a, b);
  }

  lemma DivNormRight(c: Rat, x: Rat)
    requires c.d != 0 && x.d != 0 && x.n != 0
    ensures c.d * x.n != 0
    ensures Div(c, Normalize(x)) == Normalize(Rat(c.n * x.d, c.d * x.n))
  {
    var m := Normalize(x);
    NormalizeCanonical(x);
    NormalizeCross(x);
    NormalizeNonzero(x);
    ProductNonzero(c.d, m.n);
    ProductNonzero(c.d, x.n);
    CrossQuotient(m.n, m.d, x.n, x.d, c.n, c.d);
    NormalizeRespects(Rat(c.n * m.d, c.d * m.n), Rat(c.n * x.d, c.d * x.n));
  }

  lemma CrossQuotient(p: int, q: int, r: int, s: int, k: int, l: int)
    requires p * s == r * q
    ensures (k * q) * (l * r) == (k * s) * (l * p)
  {
    calc {
      (k * q) * (l * r);
      (k * l) * (r * q);
      (k * l) * (p * s);
      (k * s) * (l * p);
    }
  }

  lemma DivNormLeft(x: Rat, c: Rat)
    requires c.d != 0 && x.d != 0 && c.n != 0
    ensures x.d * c.n != 0
    ensures Div(Normalize(x), c) == Normalize(Rat(x.n * c.d, x.d * c.n))
  {
    var m := Normalize(x);
    NormalizeCanonical(x);
    NormalizeCross(x);
    ProductNonzero(m.d, c.n);
    ProductNonzero(x.d, c.n);
    ScaleProduct(m.n, m.d, x.n, x.d, c.d, c.n);
    NormalizeRespects(Rat(m.n * c.d, m.d * c.n), Rat(x.n * c.d, x.d * c.n));
  }

  lemma MulNormBoth(x: Rat, y: Rat)
    requires x.d != 0 && y.d != 0
    ensures Mul(Normalize(x), Normalize(y)) == Normalize(Rat(x.n * y.n, x.d * y.d))
  {
    var m := Normalize(y);
    NormalizeCanonical(y);
    MulNormLeft(x, m);
    NormalizeCross(y);
    ProductNonzero(x.d, m.d);
    ProductNonzero(x.d, y.d);
    CrossScaled(m.n, m.d, y.n, y.d, x.n, x.d);
    NormalizeRespects(Rat(x.n * m.n, x.d * m.d), Rat(x.n * y.n, x.d * y.d));
  }

  lemma CrossScaled(p: int, q: int, r: int, s: int, k: int, l: int)
    requires p * s == r * q
    ensures (k * p) * (l * s) == (k * r) * (l * q)
  {
    calc {
      (k * p) * (l * s);
      (k * l) * (p * s);
      (k * l) * (r * q);
      (k * r) * (l * q);
    }
  }

  lemma DivNormBoth(x: Rat, y: Rat)
    requires x.d != 0 && y.d != 0 && y.n != 0
    ensures x.d * y.n != 0
    ensures Div(Normalize(x), Normalize(y)) == Normalize(Rat(x.n * y.d, x.d * y.n))
  {
    var m := Normalize(x);
    NormalizeCanonical(x);
    DivNormRight(m, y);
    NormalizeCross(x);
    ProductNonzero(m.d, y.n);
    ProductNonzero(x.d, y.n);
    ScaleProduct(m.n, m.d, x.n, x.d, y.d, y.n);
    NormalizeRespects(Rat(m.n * y.d, m.d * y.n), Rat(x.n * y.d, x.d * y.n));
  }

  lemma NegateSum(x: Rat, y: Rat)
    requires x.d != 0 && y.d != 0
    ensures Minus(Add(x, y)) == Add(Rat(-x.n, x.d), Rat(-y.n, y.d))
  {
    AddCorrect(x, y);
    MinusCorrect(Add(x, y));
    AddCorrect(Rat(-x.n, x.d), Rat(-y.n, y.d));
    NegatedValue(x.n, x.d);
    NegatedValue(y.n, y.d);
    CanonicalUnique(Minus(Add(x, y)), Add(Rat(-x.n, x.d), Rat(-y.n, y.d)));
  }

  lemma NegatedSum(xn: int, xd: int, yn: int, yd: int)
    ensures -(xn * yd + yn * xd) == (-xn) * yd + (-yn) * xd
  {
  }

  lemma SubAssoc(a: Rat, b: Rat, c: Rat)
    requires a.d != 0 && b.d != 0 && c.d != 0
    ensures Sub(a, Sub(b, c)) == Add(Sub(a, b), c)
  {
    SubCorrect(b, c);
    SubCorrect(a, Sub(b, c));
    SubCorrect(a, b);
    AddCorrect(Sub(a, b), c);
    CanonicalUnique(Sub(a, Sub(b, c)), Add(Sub(a, b), c));
  }

  lemma DivOfDiv(a: Rat, b: Rat, c: Rat)
    requires a.d != 0 && b.d != 0 && c.d != 0 && b.n != 0 && c.n != 0
    ensures Div(a, Div(b, c)) == Mul(Div(a, b), c)
  {
    ProductNonzero(b.d, c.n);
    ProductNonzero(b.n, c.d);
    ProductNonzero(a.d, b.n);
    DivNormRight(a, Rat(b.n * c.d, b.d * c.n));
    MulNormLeft(Rat(a.n * b.d, a.d * b.n), c);
    ProductAssoc(a.n, b.d, c.n);
    ProductAssoc(a.d, b.n, c.d);
  }

  lemma MinusTimes(x: Rat, y: Rat)
    requires x.d != 0 && y.d != 0
    ensures Mul(Rat(-x.n, x.d), y) == Minus(Mul(x, y))
  {
    ProductNonzero(x.d, y.d);
    var p := Rat(x.n * y.n, x.d * y.d);
    NormalizeNegate(p);
    NegatedProduct(x.n, y.n);
    assert Rat((-x.n) * y.n, x.d * y.d) == Rat(-p.n, p.d);
  }

  lemma NegatedProduct(a: int, b: int)
    ensures (-a) * b == -(a * b) && a * (-b) == -(a * b) && (-a) * (-b) == a * b
  {
  }

  lemma TimesMinus(x: Rat, y: Rat)
    requires x.d != 0 && y.d != 0
    ensures Mul(x, Rat(-y.n, y.d)) == Minus(Mul(x, y))
  {
    ProductNonzero(x.d, y.d);
    var p := Rat(x.n * y.n, x.d * y.d);
    NormalizeNegate(p);
    NegatedProduct(x.n, y.n);
    assert Rat(x.n * (-y.n), x.d * y.d) == Rat(-p.n, p.d);
  }

  lemma MinusTimesMinus(x: Rat, y: Rat)
    ensures Mul(Rat(-x.n, x.d), Rat(-y.n, y.d)) == Mul(x, y)
  {
    NegatedProduct(x.n, y.n);
  }

  lemma MinusOver(x: Rat, y: Rat)
    requires x.d != 0 && y.n != 0
    ensures Div(Rat(-x.n, x.d), y) == Minus(Div(x, y))
  {
    ProductNonzero(x.d, y.n);
    var q := Rat(x.n * y.d, x.d * y.n);
    NormalizeNegate(q);
    NegatedProduct(x.n, y.d);
    assert Rat((-x.n) * y.d, x.d * y.n) == Rat(-q.n, q.d);
  }

  lemma OverMinus(x: Rat, y: Rat)
    requires x.d != 0 && y.n != 0
    ensures Div(x, Rat(-y.n, y.d)) == Minus(Div(x, y))
  {
    var x' := Rat(-x.n, x.d);
    MinusOverMinus(x', y);
    MinusOver(x, y);
    assert Rat(-x'.n, x'.d) == x;
  }

  lemma MinusOverMinus(x: Rat, y: Rat)
    requires x.d != 0 && y.n != 0
    ensures Div(Rat(-x.n, x.d), Rat(-y.n, y.d)) == Div(x, y)
  {
    ProductNonzero(x.d, y.n);
    var q := Rat(x.n * y.d, x.d * y.n);
    NegatedProduct(x.n, y.d);
    NegatedProduct(x.d, y.n);
    NegatedProduct(q.n, q.d);
    NormalizeRespects(Rat((-x.n) * y.d, x.d * (-y.n)), q);
  }

  lemma SquareOfProductInt(a: int, b: int)
    ensures (a * b) * (a * b) == (a * a) * (b * b)
  {
  }

  lemma ProductNonnegative(a: int, b: int)
    requires a >= 0 && b >= 0
    ensures a * b >= 0
  {
  }

  lemma ProductPositive(a: int, b: int)
    requires a > 0 && b > 0
    ensures a * b > 0
  {
  }

  lemma SquareOfProduct(x: Rat, y: Rat)
    requires x.d != 0 && y.d != 0
    ensures Mul(Mul(x, y), Mul(x, y)) == Mul(Mul(x, x), Mul(y, y))
  {
    ProductNonzero(x.d, y.d);
    ProductNonzero(x.d, x.d);
    ProductNonzero(y.d, y.d);
    var p := Rat(x.n * y.n, x.d * y.d);
    MulNormBoth(p, p);
    MulNormBoth(Rat(x.n * x.n, x.d * x.d), Rat(y.n * y.n, y.d * y.d));
    SquareOfProductInt(x.n, y.n);
    SquareOfProductInt(x.d, y.d);
  }

  lemma SquareOfQuotient(x: Rat, y: Rat)
    requires x.d != 0 && y.d != 0 && y.n != 0
    ensures Mul(Div(x, y), Div(x, y)) == Div(Mul(x, x), Mul(y, y))
  {
    ProductNonzero(x.d, y.n);
    ProductNonzero(x.d, x.d);
    ProductNonzero(y.d, y.d);
    ProductNonzero(y.n, y.n);
    var q := Rat(x.n * y.d, x.d * y.n);
    MulNormBoth(q, q);
    DivNormBoth(Rat(x.n * x.n, x.d * x.d), Rat(y.n * y.n, y.d * y.d));
    SquareOfProductInt(x.n, y.d);
    SquareOfProductInt(x.d, y.n);
  }

  lemma SqrtMul(a: Rat, b: Rat)
    requires Canonical(a) && Canonical(b) && Sqrt(a).Ok? && Sqrt(b).Ok?
    ensures Sqrt(Mul(a, b)) == Ok(Mul(Sqrt(a).value, Sqrt(b).value))
  {
    var sa, sb := Sqrt(a).value, Sqrt(b).value;
    SqrtIsRoot(a);
    SqrtIsRoot(b);
    MulCanonical(sa, sb);
    ProductNonnegative(sa.n, sb.n);
    ProductPositive(sa.d, sb.d);
    NormalizeNonnegative(Rat(sa.n * sb.n, sa.d * sb.d));
    SquareOfProduct(sa, sb);
    SqrtOfSquare(Mul(sa, sb));
  }

  lemma SqrtDiv(a: Rat, b: Rat)
    requires Canonical(a) && Canonical(b) && Sqrt(a).Ok? && Sqrt(b).Ok?
    requires Sqrt(b).value.n != 0
    ensures b.n != 0
    ensures Sqrt(Div(a, b)) == Ok(Div(Sqrt(a).value, Sqrt(b).value))
  {
    var sa, sb := Sqrt(a).value, Sqrt(b).value;
    SqrtIsRoot(a);
    SqrtIsRoot(b);
    ProductNonzero(sb.n, sb.n);
    ProductPositive(sb.d, sb.d);
    NormalizeNonzero(Rat(sb.n * sb.n, sb.d * sb.d));
    DivCanonical(sa, sb);
    ProductNonnegative(sa.n, sb.d);
    ProductPositive(sa.d, sb.n);
    NormalizeNonnegative(Rat(sa.n * sb.d, sa.d * sb.n));
    SquareOfQuotient(sa, sb);
    SqrtOfSquare(Div(sa, sb));
  }

  lemma DivCanonical(a: Rat, b: Rat)
    requires a.d != 0 && b.d != 0 && b.n != 0
    ensures Canonical(Div(a, b))
  {
    DivCorrect(a, b);
  }

  // ---------------------------------------------------------------------
  // Text form

  /** Go's String: an integer (d == 1) prints without "/1", anything else
      as "n/d". */
  function String(r: Rat): string
  {
    if r.d == 1 then IntToString(r.n) else IntToString(r.n) + "/" + IntToString(r.d)
  }

  /** The printed form has a slash exactly when the denominator is not 1. */
  lemma StringHasSlash(r: Rat)
    ensures '/' in String(r) <==> r.d != 1
  {
    NoSlashInIntToString(r.n);
    NoSlashInIntToString(r.d);
    if r.d != 1 {
      var s := String(r);
      assert s[|IntToString(r.n)|] == '/';
    }
  }

  /** Go's newRational: a decimal integer, optionally followed by a slash and
      a decimal denominator (1 when absent). Where Go aborts (more than one
      slash, a part that is not a number) the result is None. */
  function NewRational(s: string): (r: Option<Rat>)
    ensures '/' !in s ==> r == (if Atoi(s).Some? then Some(Rat(Atoi(s).value, 1)) else None)
  {
    var p := Split(s, '/');
    if '/' !in s then SplitNoSeparator(s, '/'); Parts(p)
    else Parts(p)
  }

  function Parts(p: seq<string>): Option<Rat>
    requires |p| >= 1
  {
    if |p| > 2 then None
    else
      var num := Atoi(p[0]);
      if num.None? then None
      else if |p| == 2 then
        var den := Atoi(p[1]);
        if den.None? then None else Some(Rat(num.value, den.value))
      else Some(Rat(num.value, 1))
  }

  /** Reading back what String prints gives the same fraction. */
  lemma NewRationalOfString(r: Rat)
    ensures NewRational(String(r)) == Some(r)
  {
    var x := IntToString(r.n);
    NoSlashInIntToString(r.n);
    AtoiOfIntToString(r.n);
    if r.d == 1 {
      SplitNoSeparator(x, '/');
    } else {
      var y := IntToString(r.d);
      NoSlashInIntToString(r.d);
      AtoiOfIntToString(r.d);
      SplitNoSeparator(y, '/');
      SplitAtSeparator(x, y, '/');
      assert String(r) == x + ['/'] + y;
    }
  }

  // ---------------------------------------------------------------------
  // Worked examples

  /** Sums and quotients from the package's own examples. */
  lemma SumExamples()
    ensures Add(Rat(1, 3), Rat(-1, 2)) == Rat(-1, 6)
    ensures Add(Rat(3, 1), Rat(-4, -1)) == Rat(7, 1)
  {
  }

  lemma QuotientExample()
    ensures Div(Rat(3, 5), Rat(3, 5)) == Rat(1, 1)
  {
  }

  /** Predicates from the package's own examples. */
  lemma EqualExamples()
    ensures Equal(Rat(-3, 6), Rat(1, -2)) && !Equal(Rat(-3, 6), Rat(-2, 1))
  {
  }

  lemma EvenExamples()
    ensures Even(Rat(0, 1)) && Even(Rat(-2, 1)) && !Even(Rat(4, 8))
  {
  }

  lemma SignExamples()
    ensures Negative(Rat(1, -2)) && !Less(Rat(1, 3), Rat(1, -2))
  {
  }

  /** Pow through two exact roots: their quotient, normalized. */
  lemma PowOfRoots(r: Rat, e: Rat, n2: int, d2: int)
    requires Canonical(e) && e.n >= 0 && e.d > 1
    requires IntMath.Pow(r.n, e.n).Some? && IntMath.Pow(r.d, e.n).Some?
    requires Root(IntPow(r.n, e.n), e.d) == Some(n2) && Root(IntPow(r.d, e.n), e.d) == Some(d2)
    ensures Pow(r, e) == Ok(Normalize(Rat(n2, d2)))
  {
    PowFractionalExponent(r, e);
  }

  /** n/d is canonical when some combination of |n| and d is 1. */
  lemma CanonicalByBezout(n: int, d: int, u: int, v: int)
    requires d > 0 && u * Abs(n) + v * d == 1
    ensures Canonical(Rat(n, d))
  {
    GcdOneFromBezout(Abs(n), d, u, v);
  }

  /** ... and then it is its own normal form. */
  lemma NormalizeByBezout(n: int, d: int, u: int, v: int)
    requires d > 0 && u * Abs(n) + v * d == 1
    ensures Normalize(Rat(n, d)) == Rat(n, d)
  {
    CanonicalByBezout(n, d, u, v);
    NormalizeOfCanonical(Rat(n, d));
  }

  /** a lies strictly between k^b and (k+1)^b, so it has no b-th root. */
  lemma NoIntegerRoot(a: nat, b: nat, k: nat)
    requires b >= 1 && IntPow(k, b) < a < IntPow(k + 1, b)
    ensures Root(a, b).None?
  {
    if Root(a, b).Some? {
      var x := Root(a, b).value;
      assert x >= 0;
      if x <= k {
        IntPowBaseMonotone(x, k, b);
      } else {
        IntPowBaseMonotone(k + 1, x, b);
      }
    }
  }
}

/** Powers with fractional exponents, worked on the cases of the package's
    own tests (rational_test.go). */
module PowExamples {
  import opened Wrappers
  import IntMath
  import opened Rational

  /** Fractional powers from the package's own examples: 4/9 to the 3/2 is
      8/27, with the non-negative square roots of 64 and 729. */
  lemma PowRootExample()
    ensures Pow(Rat(4, 9), Rat(3, 2)) == Ok(Rat(8, 27))
  {
    PowRootExampleRoots();
    EightTwentySeventhsNormal();
  }

  lemma EightTwentySeventhsNormal()
    ensures Normalize(Rat(8, 27)) == Rat(8, 27)
  {
    NormalizeByBezout(8, 27, -10, 3);
  }

  lemma PowRootExampleRoots()
    ensures Pow(Rat(4, 9), Rat(3, 2)) == Ok(Normalize(Rat(8, 27)))
  {
    CanonicalByBezout(3, 2, 1, -1);
    assert IntMath.Pow(4, 3) == Some(64) && IntMath.Pow(9, 3) == Some(729);
    assert IntMath.IntPow(8, 2) == 64 && IntMath.IntPow(27, 2) == 729;
    IntMath.RootUnique(64, 2, 8);
    IntMath.RootUnique(729, 2, 27);
    PowOfRoots(Rat(4, 9), Rat(3, 2), 8, 27);
  }

  /** An odd root keeps the sign: 8/-27 to the 1/3 is -2/3. */
  lemma PowOddRootExample()
    ensures Pow(Rat(8, -27), Rat(1, 3)) == Ok(Rat(-2, 3))
  {
    PowOddRootExampleRoots();
    MinusTwoThirdsNormal();
  }

  lemma MinusTwoThirdsNormal()
    ensures Normalize(Rat(2, -3)) == Rat(-2, 3)
  {
    assert SignFixed(Rat(2, -3)) == SignFixed(Rat(-2, 3));
    NormalizeByBezout(-2, 3, -1, 1);
  }

  lemma PowOddRootExampleRoots()
    ensures Pow(Rat(8, -27), Rat(1, 3)) == Ok(Normalize(Rat(2, -3)))
  {
    CanonicalByBezout(1, 3, 1, 0);
    assert IntMath.Pow(8, 1) == Some(8) && IntMath.Pow(-27, 1) == Some(-27);
    assert IntMath.IntPow(2, 3) == 8 && IntMath.IntPow(-3, 3) == -27;
    IntMath.RootUnique(8, 3, 2);
    IntMath.RootUnique(-27, 3, -3);
    PowOfRoots(Rat(8, -27), Rat(1, 3), 2, -3);
  }

  /** MaxInt64^1 is MaxInt64, which Go's Pow cannot tell from pow's
      failure sentinel: it refuses the power, whether MaxInt64 is the
      numerator or the denominator. */
  lemma PowSentinelExamples()
    ensures Pow(Rat(IntMath.MaxInt64, 1), Rat(1, 1)).Err?
    ensures Pow(Rat(1, IntMath.MaxInt64), Rat(1, 1)).Err?
  {
    NormalizeByBezout(1, 1, 1, 0);
  }

  /** Inexact roots fail, as the package's own error cases expect: 1/2 to
      the 1/2, -8 to the 1/4 and 1/4 to the 1/3. */
  lemma PowInexactRootExamples()
    ensures Pow(Rat(1, 2), Rat(1, 2)).Err?
    ensures Pow(Rat(-8, 1), Rat(1, 4)).Err?
    ensures Pow(Rat(1, 4), Rat(1, 3)).Err?
  {
    NoSquareRootOfTwo();
    NoFourthRootOfMinusEight();
    NoCubeRootOfFour();
  }

  lemma NoSquareRootOfTwo()
    ensures Pow(Rat(1, 2), Rat(1, 2)).Err?
  {
    CanonicalByBezout(1, 2, 1, 0);
    PowFractionalExponent(Rat(1, 2), Rat(1, 2));
    assert IntMath.IntPow(2, 1) == 2 && IntMath.IntPow(1, 2) == 1 && IntMath.IntPow(2, 2) == 4;
    NoIntegerRoot(2, 2, 1);
  }

  lemma NoFourthRootOfMinusEight()
    ensures Pow(Rat(-8, 1), Rat(1, 4)).Err?
  {
    CanonicalByBezout(1, 4, 1, 0);
    PowFractionalExponent(Rat(-8, 1), Rat(1, 4));
    assert IntMath.IntPow(-8, 1) == -8;
    IntMath.NoEvenRootOfNegative(-8, 4);
  }

  lemma NoCubeRootOfFour()
    ensures Pow(Rat(1, 4), Rat(1, 3)).Err?
  {
    CanonicalByBezout(1, 3, 1, 0);
    PowFractionalExponent(Rat(1, 4), Rat(1, 3));
    assert IntMath.IntPow(4, 1) == 4 && IntMath.IntPow(1, 3) == 1 && IntMath.IntPow(2, 3) == 8;
    NoIntegerRoot(4, 3, 1);
  }
}
