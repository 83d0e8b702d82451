/** The integer helpers of the formula search: factorial and square-root
    lookups, exact roots, checked powers and Euclid's gcd (math.go, and their
    verbatim copies in rat.go). The Go code signals every failure by returning
    MaxInt64; here that sentinel is `None`. Integers are unbounded; the only
    64-bit limits kept are the explicit MaxInt64 bounds of `Pow`. */
module IntMath {
  import opened Wrappers

  const MaxInt64: int := 9223372036854775807
  /** Factorials are tabulated (and defined) up to this argument. */
  const MaxFactorial: int := 20
  /** Square roots are tabulated up to this root. */
  const MaxSqrt: int := 1000000

  function Abs(x: int): nat { if x < 0 then -x else x }

  /** n!, the content of the factorial lookup table. */
  function Factorial(n: nat): nat
  {
    if n == 0 then 1 else n * Factorial(n - 1)
  }

  /** a^b for a natural exponent. */
  function IntPow(a: int, b: nat): int
  {
    if b == 0 then 1 else a * IntPow(a, b - 1)
  }

  /** Go's integer division, which truncates toward zero. */
  function GoQuo(a: int, b: int): (q: int)
    requires b != 0
    ensures Abs(a - b * q) < Abs(b)
    ensures a >= 0 && b > 0 ==> q == a / b
  {
    var q := Abs(a) / Abs(b);
    if (a < 0) == (b < 0) then q else -q
  }

  /** Go's remainder: it has the sign of the dividend. */
  function GoRem(a: int, b: int): (r: int)
    requires b != 0
    ensures Abs(r) < Abs(b)
    ensures a >= 0 && b > 0 ==> r == a % b
  {
    a - b * GoQuo(a, b)
  }

  lemma GoQuoNegate(a: int, b: int)
    requires b != 0
    ensures GoQuo(-a, b) == -GoQuo(a, b)
  {
    assert Abs(-a) == Abs(a);
  }

  lemma MulNegRight(x: int, y: int)
    ensures x * -y == -(x * y)
  {
  }

  /** Truncated remainders are odd functions of the dividend. */
  lemma GoRemNegate(a: int, b: int)
    requires b != 0
    ensures GoRem(-a, b) == -GoRem(a, b)
  {
    GoQuoNegate(a, b);
    MulNegRight(b, GoQuo(a, b));
  }

  // ---------------------------------------------------------------------
  // fact and its lookup table

  /** Go's fact: the tabulated n! for n = 0 and 3..MaxFactorial, the sentinel
      otherwise (1 and 2 are not in the table). */
  function Fact(n: int): (r: Option<int>)
    ensures r.Some? <==> n == 0 || 3 <= n <= MaxFactorial
    ensures r.Some? ==> 1 <= r.value <= MaxInt64
    ensures n == 0 ==> r == Some(1)
  {
    if n < 0 || n > MaxFactorial || (n < 3 && n != 0) then None
    else
      FactorialFitsInt64(n);
      Some(Factorial(n))
  }

  /** t holds exactly the factorials of 0 and of 3 up to (excluding) i. */
  ghost predicate FactTableUpTo(t: map<int, int>, i: int)
  {
    (forall n :: n in t <==> n == 0 || 3 <= n < i) &&
    (forall n :: n in t ==> n >= 0 && t[n] == Factorial(n))
  }

  lemma FactTableStep(t: map<int, int>, i: int, f: int)
    requires i >= 3 && FactTableUpTo(t, i) && f == Factorial(i)
    ensures FactTableUpTo(t[i := f], i + 1)
  {
  }

  /** The `init` loop that fills the factorial table. */
  method BuildFactTable() returns (t: map<int, int>)
    ensures FactTableUpTo(t, MaxFactorial + 1)
  {
    t := map[0 := 1];
    var f := 2;
    var i := 3;
    while i <= MaxFactorial
      invariant 3 <= i <= MaxFactorial + 1
      invariant f == Factorial(i - 1)
      invariant FactTableUpTo(t, i)
    {
      assert Factorial(i) == i * Factorial(i - 1);
      f := i * f;
      FactTableStep(t, i, f);
      t := t[i := f];
      i := i + 1;
    }
  }

  /** Looking up the table BuildFactTable produces is exactly Fact. */
  lemma FactReadsTable(t: map<int, int>)
    requires FactTableUpTo(t, MaxFactorial + 1)
    ensures forall n :: Fact(n) == if n in t then Some(t[n]) else None
  {
    forall n ensures Fact(n) == if n in t then Some(t[n]) else None {
      if n in t {
        assert Fact(n) == Some(Factorial(n));
      } else {
        assert Fact(n).None?;
      }
    }
  }

  lemma {:induction false} FactorialMonotone(m: nat, n: nat)
    requires m <= n
    ensures 1 <= Factorial(m) <= Factorial(n)
    decreases n
  {
    if m < n {
      FactorialMonotone(m, n - 1);
    } else if n > 0 {
      FactorialMonotone(n - 1, n - 1);
    }
  }

  lemma FactorialFitsInt64(n: nat)
    requires n <= MaxFactorial
    ensures 1 <= Factorial(n) <= MaxInt64
  {
    FactorialMonotone(n, 20);
    assert Factorial(5) == 120;
    assert Factorial(10) == 3628800;
    assert Factorial(15) == 1307674368000;
    assert Factorial(20) == 2432902008176640000;
  }

  // ---------------------------------------------------------------------
  // sqrt, root and their lookup table

  /** Search for an exact b-th root of a, starting at r. */
  function RootFrom(a: nat, b: nat, r: nat): (res: Option<nat>)
    requires b >= 1
    ensures res.Some? ==> r <= res.value && IntPow(res.value, b) == a
    ensures res.None? ==> forall y: nat {:trigger IntPow(y, b)} :: r <= y ==> IntPow(y, b) != a
    decreases a + 1 - r
  {
    if r > a then
      NoRootAbove(a, b, r, r);
      None
    else if IntPow(r, b) == a then Some(r)
    else if IntPow(r, b) > a then
      NoRootAbove(a, b, r, r);
      None
    else RootFrom(a, b, r + 1)
  }

  /** Once r^b exceeds a (or r does), no root of a lies at or above r. */
  lemma NoRootAbove(a: nat, b: nat, r: nat, r0: nat)
    requires b >= 1 && r0 <= r && (r > a || IntPow(r, b) > a)
    ensures forall y: nat {:trigger IntPow(y, b)} :: r <= y ==> IntPow(y, b) != a
  {
    forall y: nat | r <= y
      ensures IntPow(y, b) != a
    {
      if r > a {
        IntPowAtLeastBase(y, b);
      } else if r < y {
        IntPowStrictlyMonotone(r, y, b);
      }
    }
  }

  /** Go's sqrt: the exact integer square root of n >= 2, the sentinel for
      n < 2 and for non-squares. For n up to MaxSqrt^2 the source reads the
      lookup table, above it a floating estimate checked by squaring; both
      mean the exact root. */
  function Sqrt(n: int): (r: Option<int>)
    ensures r.Some? ==> r.value >= 1 && r.value * r.value == n
    ensures r.None? ==> n < 2 || forall s :: s * s != n
  {
    if n < 2 then None
    else
      var res := RootFrom(n, 2, 0);
      if res.Some? then
        IntPowTwo(res.value);
        Some(res.value as int)
      else
        NoSquareRoot(n);
        None
  }

  lemma NoSquareRoot(n: nat)
    requires RootFrom(n, 2, 0).None?
    ensures forall s :: s * s != n
  {
    forall s: int ensures s * s != n {
      IntPowTwo(Abs(s));
      assert Abs(s) * Abs(s) == s * s;
    }
  }

  /** The `init` loop that fills the square-root table with i*i -> i. */
  method BuildSqrtTable() returns (t: map<int, int>)
    ensures forall k :: k in t ==> 1 <= t[k] <= MaxSqrt && t[k] * t[k] == k
    ensures forall i :: 1 <= i <= MaxSqrt ==> i * i in t && t[i * i] == i
    ensures forall n :: 2 <= n <= MaxSqrt * MaxSqrt ==>
              Sqrt(n) == if n in t then Some(t[n]) else None
  {
    t := map[];
    var i := 1;
    while i <= MaxSqrt
      invariant 1 <= i <= MaxSqrt + 1
      invariant forall k :: k in t ==> 1 <= t[k] < i && t[k] * t[k] == k
      invariant forall j :: 1 <= j < i ==> j * j in t && t[j * j] == j
    {
      t := t[i * i := i];
      i := i + 1;
    }
    forall n | 2 <= n <= MaxSqrt * MaxSqrt
      ensures Sqrt(n) == if n in t then Some(t[n]) else None
    {
      if Sqrt(n).Some? {
        var s := Sqrt(n).value;
        SquareBound(s, MaxSqrt);
        assert t[s * s] == s;
      }
    }
  }

  lemma MulStrictlyMonotone(x: nat, y: nat)
    requires x < y
    ensures x * x < y * y
  {
    assert x * x <= x * y < y * y;
  }

  lemma SquareBound(s: nat, m: nat)
    requires s * s <= m * m
    ensures s <= m
  {
    if s > m { MulStrictlyMonotone(m, s); }
  }

  lemma SquareRootUnique(x: nat, y: nat)
    requires x * x == y * y
    ensures x == y
  {
    if x < y { MulStrictlyMonotone(x, y); }
    if y < x { MulStrictlyMonotone(y, x); }
  }

  /** Go's root(a, b) = a^(1/b): a itself for b == 1, a == 0 or a == 1, the
      square root for b == 2, minus the root of -a for a negative a and an odd
      b, and the sentinel when no integer root exists. The floating estimate
      of the source is replaced by its exact meaning; for b <= 0 (never
      passed by a caller) the estimate never passes the source's check. */
  function Root(a: int, b: int): (r: Option<int>)
    ensures r.Some? && b >= 1 ==> IntPow(r.value, b) == a
    ensures b >= 1 ==> (r.Some? <==> exists x {:trigger IntPow(x, b)} :: IntPow(x, b) == a)
    ensures a == 0 && b == 0 ==> r.None?
    ensures (b == 1 || a == 0 || a == 1) && !(a == 0 && b == 0) ==> r == Some(a)
    ensures b == 2 && a != 0 && a != 1 ==> r == Sqrt(a)
    ensures b >= 1 && r.Some? ==> (r.value < 0 <==> a < 0)
    ensures b >= 1 && b % 2 == 0 && r.Some? ==> r.value >= 0
  {
    if a == 0 && b == 0 then None
    else if b == 1 || a == 0 || a == 1 then
      IntPowOfZeroOrOne(a, b);
      Some(a)
    else if b == 2 then
      var s := Sqrt(a);
      IntPowTwoAll();
      if s.Some? then Some(s.value)
      else None
    else
      var negate := a < 0 && GoRem(b, 2) == 1;
      var m := if negate then -a else a;
      if m < 0 then
        // an even root of a negative number
        NoEvenRootOfNegative(a, b);
        None
      else if b < 1 then None
      else
        var res := RootFrom(m, b, 0);
        if res.None? then
          NoRootOfEitherSign(a, b, m);
          None
        else if negate then
          IntPowNegate(res.value, b);
          IntPowOfZeroOrOne(0, b);
          Some(-(res.value as int))
        else Some(res.value as int)
  }

  /** The square root Root returns is the non-negative one. */
  lemma RootTwoSound(a: int)
    ensures Root(a, 2).Some? ==> Root(a, 2).value >= 0 && Root(a, 2).value * Root(a, 2).value == a
  {
    if Root(a, 2).Some? {
      IntPowTwo(Root(a, 2).value);
    }
  }

  /** Every non-negative x is the square root Root finds for x*x. */
  lemma RootOfSquare(x: int)
    requires x >= 0
    ensures Root(x * x, 2) == Some(x)
  {
    if x >= 2 {
      MulMonotone(x, 2, x);
      var s := Sqrt(x * x);
      assert s.Some?;
      SquareRootUnique(s.value, x);
    }
  }

  /** Root picks the b-th root of a that has a's sign: for an even b the
      non-negative one, so any x of that sign with x^b == a is the result. */
  lemma RootUnique(a: int, b: int, x: int)
    requires b >= 1 && IntPow(x, b) == a && (x < 0 <==> a < 0)
    ensures Root(a, b) == Some(x)
  {
    assert Root(a, b).Some?;
    var y := Root(a, b).value;
    if x >= 0 {
      IntPowInjective(x, y, b);
    } else {
      IntPowNegate(x, b);
      IntPowNegate(y, b);
      IntPowInjective(-x, -y, b);
    }
  }

  /** b-th powers of naturals are distinct. */
  lemma IntPowInjective(x: nat, y: nat, b: nat)
    requires b >= 1 && IntPow(x, b) == IntPow(y, b)
    ensures x == y
  {
    if x < y { IntPowStrictlyMonotone(x, y, b); }
    if y < x { IntPowStrictlyMonotone(y, x, b); }
  }

  lemma NoEvenRootOfNegative(a: int, b: int)
    requires a < 0 && (b < 1 || GoRem(b, 2) != 1)
    ensures b >= 1 ==> forall x {:trigger IntPow(x, b)} :: IntPow(x, b) != a
  {
    if b >= 1 {
      forall x ensures IntPow(x, b) != a {
        assert b % 2 == 0;
        IntPowEvenNonneg(x, b);
      }
    }
  }

  lemma NoRootOfEitherSign(a: int, b: nat, m: nat)
    requires b >= 1 && RootFrom(m, b, 0).None?
    requires m == a || (m == -a && b % 2 == 1)
    ensures forall x {:trigger IntPow(x, b)} :: IntPow(x, b) != a
  {
    forall x ensures IntPow(x, b) != a {
      IntPowNegate(x, b);
      IntPowNegate(Abs(x), b);
      IntPowNonneg(Abs(x), b);
      assert IntPow(Abs(x), b) != m;
    }
  }

  // ---------------------------------------------------------------------
  // pow

  /** Go's pow(a, b): the sentinel for 0^b with b <= 0 and for results beyond
      MaxInt64 (b > 15 with |a| > 15 is rejected up front); a for b == 1 and
      for a == 0; 1 for b == 0. A negative exponent (never passed by a caller)
      gives the truncated floating value: +-1 for |a| == 1, else 0. The
      caller cannot tell a result equal to MaxInt64 (MaxInt64^1) from the
      sentinel, so that result is None too. */
  function Pow(a: int, b: int): (r: Option<int>)
    ensures b >= 0 ==> (r.Some? <==>
      !(a == 0 && b == 0) && (b <= 1 || Abs(IntPow(a, b)) <= MaxInt64) && IntPow(a, b) != MaxInt64)
    ensures b >= 0 && r.Some? ==> r.value == IntPow(a, b)
    ensures b < 0 ==> (r.Some? <==> a != 0) && (r.Some? ==> Abs(r.value) <= 1)
  {
    if a == 0 && b <= 0 then None
    else if a == 0 || b == 1 then
      IntPowOfZeroOrOne(a, b);
      if a == MaxInt64 then None else Some(a)
    else if b == 0 then Some(1)
    else if b > 15 && (a > 15 || a < -15) then
      PowBeyondInt64(a, b);
      None
    else if b < 0 then
      Some(if a == 1 then 1 else if a == -1 then (if GoRem(b, 2) == 0 then 1 else -1) else 0)
    else if Abs(IntPow(a, b)) > MaxInt64 || IntPow(a, b) == MaxInt64 then None
    else Some(IntPow(a, b))
  }

  /** MaxInt64 leaves 3 over 4, and a square leaves 0 or 1, so no square
      is the sentinel. */
  lemma SquareNotMaxInt64(x: int)
    ensures x * x != MaxInt64
  {
    var q, r := x / 2, x % 2;
    assert x == 2 * q + r;
    assert x * x == 4 * (q * q + q * r) + r * r;
  }

  /** An even power does not see the sign of its base, overflow included. */
  lemma PowEvenSymmetric(a: int, b: int)
    requires b >= 0 && GoRem(b, 2) == 0
    ensures Pow(-a, b) == Pow(a, b)
  {
    IntPowNegate(a, b);
  }

  lemma PowBeyondInt64(a: int, b: nat)
    requires b > 15 && Abs(a) > 15
    ensures Abs(IntPow(a, b)) > MaxInt64
  {
    IntPowAbs(a, b);
    IntPowBaseMonotone(16, Abs(a), b);
    IntPowExpMonotone(16, 16, b);
    assert IntPow(16, 2) == 256;
    IntPowAdd(16, 2, 2);
    IntPowAdd(16, 4, 4);
    IntPowAdd(16, 8, 8);
  }

  // ---------------------------------------------------------------------
  // lemmas about IntPow

  lemma IntPowOfZeroOrOne(a: int, b: int)
    requires a == 0 || a == 1 || b == 1
    ensures b >= 1 ==> IntPow(a, b) == a
  {
    if b > 1 { IntPowOfZeroOrOne(a, b - 1); }
  }

  lemma IntPowTwo(x: int)
    ensures IntPow(x, 2) == x * x
  {
    assert IntPow(x, 1) == x;
  }

  lemma IntPowTwoAll()
    ensures forall x {:trigger IntPow(x, 2)} :: IntPow(x, 2) == x * x
  {
    forall x { IntPowTwo(x); }
  }

  // Small facts of non-linear arithmetic, stated once.

  lemma MulMonotone(a: int, b: int, c: int)
    requires a >= 0 && b <= c
    ensures a * b <= a * c
  {
    assert a * c - a * b == a * (c - b);
  }

  lemma MulStrictMonotone(a: int, b: int, c: int)
    requires a > 0 && b < c
    ensures a * b < a * c
  {
    assert a * c - a * b == a * (c - b);
  }

  lemma {:induction false} IntPowNonneg(a: int, b: nat)
    requires a >= 0
    ensures IntPow(a, b) >= 0
  {
    if b > 0 { IntPowNonneg(a, b - 1); }
  }

  lemma {:induction false} IntPowNonzero(a: int, b: nat)
    requires a != 0
    ensures IntPow(a, b) != 0
  {
    if b > 0 {
      IntPowNonzero(a, b - 1);
      if a > 0 && IntPow(a, b - 1) > 0 { MulStrictMonotone(a, 0, IntPow(a, b - 1)); }
      if a > 0 && IntPow(a, b - 1) < 0 { MulStrictMonotone(a, IntPow(a, b - 1), 0); }
      if a < 0 && IntPow(a, b - 1) > 0 { MulStrictMonotone(IntPow(a, b - 1), a, 0); }
      if a < 0 && IntPow(a, b - 1) < 0 { MulStrictMonotone(-a, IntPow(a, b - 1), 0); }
    }
  }

  lemma {:induction false} IntPowNegate(a: int, b: nat)
    ensures IntPow(-a, b) == if b % 2 == 0 then IntPow(a, b) else -IntPow(a, b)
  {
    if b > 0 { IntPowNegate(a, b - 1); }
  }

  lemma IntPowEvenNonneg(a: int, b: nat)
    requires b % 2 == 0
    ensures IntPow(a, b) >= 0
  {
    IntPowNegate(Abs(a), b);
    IntPowNonneg(Abs(a), b);
  }

  lemma {:induction false} IntPowAbs(a: int, b: nat)
    ensures Abs(IntPow(a, b)) == IntPow(Abs(a), b)
  {
    if b > 0 {
      IntPowAbs(a, b - 1);
      IntPowNonneg(Abs(a), b - 1);
      assert Abs(a * IntPow(a, b - 1)) == Abs(a) * Abs(IntPow(a, b - 1));
    }
  }

  lemma {:induction false} IntPowAtLeastBase(y: nat, b: nat)
    requires b >= 1
    ensures y <= IntPow(y, b) || y == 0
  {
    if b > 1 && y > 0 {
      IntPowAtLeastBase(y, b - 1);
      MulMonotone(y, 1, IntPow(y, b - 1));
    }
  }

  lemma {:induction false} IntPowStrictlyMonotone(x: nat, y: nat, b: nat)
    requires x < y && b >= 1
    ensures IntPow(x, b) < IntPow(y, b)
  {
    if b > 1 {
      IntPowStrictlyMonotone(x, y, b - 1);
      IntPowNonneg(x, b - 1);
      IntPowNonneg(y, b - 1);
      MulMonotone(x, IntPow(x, b - 1), IntPow(y, b - 1));
      assert IntPow(y, b - 1) > 0;
      MulStrictMonotone(IntPow(y, b - 1), x, y);
      assert x * IntPow(y, b - 1) < y * IntPow(y, b - 1);
    }
  }

  lemma IntPowBaseMonotone(x: nat, y: nat, b: nat)
    requires x <= y
    ensures IntPow(x, b) <= IntPow(y, b)
  {
    if x < y && b >= 1 { IntPowStrictlyMonotone(x, y, b); }
  }

  lemma {:induction false} IntPowExpMonotone(a: nat, m: nat, n: nat)
    requires a >= 1 && m <= n
    ensures IntPow(a, m) <= IntPow(a, n)
    decreases n
  {
    if m < n {
      IntPowExpMonotone(a, m, n - 1);
      IntPowNonneg(a, n - 1);
      MulMonotone(IntPow(a, n - 1), 1, a);
    }
  }

  lemma {:induction false} IntPowAdd(a: int, m: nat, n: nat)
    ensures IntPow(a, m + n) == IntPow(a, m) * IntPow(a, n)
  {
    if m > 0 {
      IntPowAdd(a, m - 1, n);
      assert IntPow(a, m + n) == a * IntPow(a, m - 1 + n);
    }
  }

  lemma {:induction false} IntPowMul(a: int, c: int, b: nat)
    ensures IntPow(a * c, b) == IntPow(a, b) * IntPow(c, b)
  {
    if b > 0 {
      IntPowMul(a, c, b - 1);
      assert IntPow(a * c, b) == (a * c) * (IntPow(a, b - 1) * IntPow(c, b - 1));
    }
  }

  // ---------------------------------------------------------------------
  // gcd

  /** Go's recursive Euclid, with Go's truncated remainder: the sentinel when
      both arguments are <= 0. */
  function Gcd(a: int, b: int): (g: Option<int>)
    decreases Abs(b)
  {
    if a <= 0 && b <= 0 then None
    else if a == 0 then Some(b)
    else if b == 0 then Some(a)
    else Gcd(b, GoRem(a, b))
  }

  /** For non-negative a, b not both zero, Gcd returns a positive common
      divisor g together with the quotients and the Bezout coefficients
      u*a + v*b == g, which make it the greatest one. */
  lemma {:induction false} GcdFacts(a: int, b: int) returns (qa: int, qb: int, u: int, v: int)
    requires a >= 0 && b >= 0 && (a > 0 || b > 0)
    ensures Gcd(a, b).Some? && Gcd(a, b).value > 0
    ensures a == Gcd(a, b).value * qa && b == Gcd(a, b).value * qb
    ensures u * a + v * b == Gcd(a, b).value
    decreases b
  {
    if a == 0 {
      qa, qb, u, v := 0, 1, 0, 1;
    } else if b == 0 {
      qa, qb, u, v := 1, 0, 1, 0;
    } else {
      var k := GoQuo(a, b);
      var r := GoRem(a, b);
      assert a == b * k + r;
      assert 0 <= r < b;
      var qb', qr, u', v' := GcdFacts(b, r);
      var g := Gcd(b, r).value;
      assert Gcd(a, b) == Gcd(b, r);
      qa := qb' * k + qr;
      qb := qb';
      EuclidQuotients(a, b, r, k, g, qb', qr);
      u := v';
      v := u' - v' * k;
      EuclidBezout(a, b, r, k, g, u', v');
    }
  }

  lemma EuclidQuotients(a: int, b: int, r: int, k: int, g: int, qb: int, qr: int)
    requires a == b * k + r && b == g * qb && r == g * qr
    ensures a == g * (qb * k + qr)
  {
    assert b * k == g * (qb * k);
  }

  lemma EuclidBezout(a: int, b: int, r: int, k: int, g: int, u: int, v: int)
    requires a == b * k + r && u * b + v * r == g
    ensures v * a + (u - v * k) * b == g
  {
    assert v * (b * k) == (v * k) * b;
  }

  lemma CombineMultiples(k: int, ka: int, kb: int, u: int, v: int)
    ensures u * (k * ka) + v * (k * kb) == k * (u * ka + v * kb)
  {
    assert u * (k * ka) == k * (u * ka);
    assert v * (k * kb) == k * (v * kb);
  }

  /** Every common divisor of a and b divides their Gcd. */
  lemma GcdGreatest(a: int, b: int, k: int, ka: int, kb: int) returns (kg: int)
    requires a >= 0 && b >= 0 && (a > 0 || b > 0)
    requires a == k * ka && b == k * kb
    ensures Gcd(a, b).Some? && Gcd(a, b).value == k * kg
  {
    var qa, qb, u, v := GcdFacts(a, b);
    kg := u * ka + v * kb;
    CombineMultiples(k, ka, kb, u, v);
  }

  /** If some combination of a and b is 1, then their Gcd is 1. */
  lemma GcdOneFromBezout(a: int, b: int, u: int, v: int)
    requires a >= 0 && b >= 0 && u * a + v * b == 1
    ensures Gcd(a, b) == Some(1)
  {
    assert a > 0 || b > 0;
    var qa, qb, u', v' := GcdFacts(a, b);
    var g := Gcd(a, b).value;
    var m := u * qa + v * qb;
    CombineMultiples(g, qa, qb, u, v);
    UnitFactor(g, m);
  }

  lemma CancelFactor(g: int, x: int, y: int)
    requires g > 0 && g * x == g * y
    ensures x == y
  {
    if x < y { MulStrictMonotone(g, x, y); }
    if y < x { MulStrictMonotone(g, y, x); }
  }

  lemma UnitFactor(g: int, m: int)
    requires g > 0 && g * m == 1
    ensures g == 1
  {
    if m <= 0 {
      MulMonotone(g, m, 0);
    } else {
      MulMonotone(g, 1, m);
    }
  }

  /** Coprime numbers have coprime squares. */
  lemma CoprimeSquares(p: nat, q: nat)
    requires Gcd(p, q) == Some(1)
    ensures Gcd(p * p, q * q) == Some(1)
  {
    var qa, qb, u, v := GcdFacts(p, q);
    // squaring u*p + v*q == 1 twice moves each side to its square
    var u1, v1 := BezoutSquareRight(p, q, u, v);
    var u2, v2 := BezoutSquareRight(q * q, p, v1, u1);
    GcdOneFromBezout(p * p, q * q, v2, u2);
  }

  /** From u*p + v*q == 1, a combination of p and q*q that is 1. */
  lemma BezoutSquareRight(p: int, q: int, u: int, v: int) returns (u': int, v': int)
    requires u * p + v * q == 1
    ensures u' * p + v' * (q * q) == 1
  {
    var s, t := u * p, v * q;
    u' := u * s + 2 * v * q * u;
    v' := v * v;
    calc {
      u' * p + v' * (q * q);
      (u * s) * p + (2 * v * q * u) * p + (v * v) * (q * q);
      { assert (u * s) * p == s * s; assert (2 * v * q * u) * p == 2 * s * t; assert (v * v) * (q * q) == t * t; }
      s * s + 2 * s * t + t * t;
      (s + t) * (s + t);
      1;
    }
  }

  /** If the squares are coprime, so are the numbers. */
  lemma CoprimeOfSquares(p: int, q: int)
    requires p >= 0 && q > 0 && Gcd(p * p, q * q) == Some(1)
    ensures Gcd(p, q) == Some(1)
  {
    var qa, qb, u, v := GcdFacts(p, q);
    var g := Gcd(p, q).value;
    SquareOfMultiple(p, g, qa);
    SquareOfMultiple(q, g, qb);
    MulStrictMonotone(q, 0, q);
    var kg := GcdGreatest(p * p, q * q, g, qa * p, qb * q);
    UnitFactor(g, kg);
  }

  lemma SquareOfMultiple(p: int, g: int, k: int)
    requires p == g * k
    ensures p * p == g * (k * p)
  {
  }
}
