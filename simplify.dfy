/** The canonicalizer of node.go: Simplify and its two rule tables.
    `transformDuo` rewrites (op1 a) op2 (op3 b) into op4 (a op5 b) and
    `transformTrio` rewrites a op1 (b op2 c) into (a op3 b) op4 c, where an
    op of Null stands for "no operator". Simplify also removes a double
    minus and a minus under an even power, then simplifies the operands, and
    runs again on any changed tree.

    Go compares node pointers to see whether anything changed; here trees are
    values and the comparison is structural. The two agree: every rewrite
    makes the tree strictly smaller in the order `Below`, so a changed tree
    is never structurally equal to the old one. */
module Simplification {
  import opened Wrappers
  import opened Rational
  import opened Nodes

  // ---------------------------------------------------------------------
  // The rule tables

  datatype DuoRule = DuoRule(op1: Op, op2: Op, op3: Op, op4: Op, op5: Op)

  /** An operator that may wrap an operand: none, or a unary one. */
  predicate Wrapper(op: Op)
  {
    op == Null || IsUnary(op)
  }

  /** What every duo rule in the table satisfies: binary op2 and op5, and at
      least one wrapper removed; a result wrapped in a minus comes from
      exactly one minus operand, a result wrapped in sqrt from two sqrt
      operands. */
  predicate DuoShaped(t: DuoRule)
  {
    IsBinary(t.op2) && IsBinary(t.op5) && Wrapper(t.op1) && Wrapper(t.op3) && Wrapper(t.op4)
    && (t.op1 != Null || t.op3 != Null)
    && (t.op4 == Minus ==> (t.op1 == Minus && t.op3 == Null) || (t.op1 == Null && t.op3 == Minus))
    && (t.op4 == Sqrt ==> t.op1 == Sqrt && t.op3 == Sqrt)
    && t.op4 != Fact
  }

  type Duo = t: DuoRule | DuoShaped(t) witness DuoRule(Null, Add, Minus, Null, Sub)

  /** The duo table of Simplify, in its order (the first rule is listed
      twice in the source as well). */
  const DuoRules: seq<Duo> := [
    DuoRule(Null, Add, Minus, Null, Sub),
    DuoRule(Null, Add, Minus, Null, Sub),
    DuoRule(Null, Sub, Minus, Null, Add),
    DuoRule(Minus, Sub, Null, Minus, Add),
    DuoRule(Minus, Add, Null, Minus, Sub),
    DuoRule(Minus, Mul, Minus, Null, Mul),
    DuoRule(Minus, Div, Minus, Null, Div),
    DuoRule(Minus, Mul, Null, Minus, Mul),
    DuoRule(Minus, Div, Null, Minus, Div),
    DuoRule(Null, Mul, Minus, Minus, Mul),
    DuoRule(Null, Div, Minus, Minus, Div),
    DuoRule(Sqrt, Mul, Sqrt, Sqrt, Mul),
    DuoRule(Sqrt, Div, Sqrt, Sqrt, Div)
  ]

  datatype TrioRule = TrioRule(op1: Op, op2: Op, op3: Op, op4: Op)

  type Trio = t: TrioRule | IsBinary(t.op1) && IsBinary(t.op2) && IsBinary(t.op3) && IsBinary(t.op4)
    witness TrioRule(Add, Add, Add, Add)

  /** The trio table: right-nested trees are re-associated to the left. */
  const TrioRules: seq<Trio> := [
    TrioRule(Add, Add, Add, Add),
    TrioRule(Sub, Sub, Sub, Add),
    TrioRule(Mul, Mul, Mul, Mul),
    TrioRule(Div, Div, Div, Mul)
  ]

  /** transformDuo fires on n: the operator is op2 and each operand carries
      its wrapper (a Null wrapper accepts any operand). */
  predicate DuoMatches(n: Node, t: Duo)
    requires WellFormed(n)
  {
    n.op == t.op2
    && (t.op1 == Null || n.left.value.op == t.op1)
    && (t.op3 == Null || n.right.value.op == t.op3)
  }

  /** The operands a and b of a matching duo rule. */
  function DuoLeft(n: Node, t: Duo): Node
    requires WellFormed(n) && DuoMatches(n, t)
  {
    assert WellFormed(n.left.value);
    if t.op1 == Null then n.left.value else n.left.value.left.value
  }

  function DuoRight(n: Node, t: Duo): Node
    requires WellFormed(n) && DuoMatches(n, t)
  {
    assert WellFormed(n.right.value);
    if t.op3 == Null then n.right.value else n.right.value.left.value
  }

  /** transformTrio fires on n. */
  predicate TrioMatches(n: Node, t: Trio)
    requires WellFormed(n)
  {
    n.op == t.op1 && n.right.value.op == t.op2
  }

  /** None of the first i duo rules fires on n. */
  predicate NoDuoBefore(n: Node, i: nat)
    requires WellFormed(n) && i <= |DuoRules|
  {
    i == 0 || (NoDuoBefore(n, i - 1) && !DuoMatches(n, DuoRules[i - 1]))
  }

  /** None of the first i trio rules fires on n. */
  predicate NoTrioBefore(n: Node, i: nat)
    requires WellFormed(n) && i <= |TrioRules|
  {
    i == 0 || (NoTrioBefore(n, i - 1) && !TrioMatches(n, TrioRules[i - 1]))
  }

  /** n is a fixed point of Simplify: no double minus, a minus under a power
      only when the exponent is not an even integer (and then the operands
      are not looked at), and otherwise no rule applies here and the
      operands are fixed points too. */
  predicate Stable(n: Node)
    requires WellFormed(n)
  {
    if n.op == Minus && n.left.value.op == Minus then false
    else if n.op == Pow && n.left.value.op == Minus then
      var e := Eval(n.right.value);
      !(e.Ok? && Even(e.value))
    else
      NoDuoBefore(n, |DuoRules|) && NoTrioBefore(n, |TrioRules|)
      && (n.left.Some? ==> Stable(n.left.value))
      && (n.right.Some? ==> Stable(n.right.value))
  }

  // ---------------------------------------------------------------------
  // The termination order

  /** Operand sizes weighted by position: moving nodes from a right operand
      to a left one makes it smaller. */
  function RightWeight(n: Node): nat
  {
    (if n.left.Some? then RightWeight(n.left.value) else 0)
    + (if n.right.Some? then RightWeight(n.right.value) + Size(n.right.value) else 0)
  }

  function MinusCount(n: Node): nat
  {
    (if n.op == Minus then 1 else 0)
    + (if n.left.Some? then MinusCount(n.left.value) else 0)
    + (if n.right.Some? then MinusCount(n.right.value) else 0)
  }

  /** The minus signs below binary nodes: pulling a sign out of an operand
      makes it smaller. */
  function MinusWeight(n: Node): nat
  {
    var l := if n.left.Some? then MinusWeight(n.left.value) + MinusCount(n.left.value) else 0;
    var r := if n.right.Some? then MinusWeight(n.right.value) + MinusCount(n.right.value) else 0;
    if n.right.Some? then l + r
    else if n.left.Some? then MinusWeight(n.left.value)
    else 0
  }

  /** The lexicographic order on (Size, RightWeight, MinusCount,
      MinusWeight) that every rewrite decreases. */
  predicate Below(a: Node, b: Node)
  {
    Size(a) < Size(b)
    || (Size(a) == Size(b) && RightWeight(a) < RightWeight(b))
    || (Size(a) == Size(b) && RightWeight(a) == RightWeight(b) && MinusCount(a) < MinusCount(b))
    || (Size(a) == Size(b) && RightWeight(a) == RightWeight(b) && MinusCount(a) == MinusCount(b)
        && MinusWeight(a) < MinusWeight(b))
  }

  predicate AtMost(a: Node, b: Node)
  {
    Below(a, b)
    || (Size(a) == Size(b) && RightWeight(a) == RightWeight(b) && MinusCount(a) == MinusCount(b)
        && MinusWeight(a) == MinusWeight(b))
  }

  predicate AtMostOpt(a: Option<Node>, b: Option<Node>)
  {
    (a.None? && b.None?) || (a.Some? && b.Some? && AtMost(a.value, b.value))
  }

  lemma BelowAtMost(a: Node, b: Node, c: Node)
    requires (Below(a, b) && AtMost(b, c)) || (AtMost(a, b) && Below(b, c))
    ensures Below(a, c)
  {
  }

  lemma AtMostTrans(a: Node, b: Node, c: Node)
    requires AtMost(a, b) && AtMost(b, c)
    ensures AtMost(a, c)
  {
  }

  /** Replacing operands by smaller ones makes the node smaller. */
  lemma Compose(m: Node, n: Node)
    requires m.op == n.op && AtMostOpt(m.left, n.left) && AtMostOpt(m.right, n.right)
    ensures AtMost(m, n)
    ensures ((m.left.Some? && Below(m.left.value, n.left.value))
             || (m.right.Some? && Below(m.right.value, n.right.value))) ==> Below(m, n)
  {
  }

  // ---------------------------------------------------------------------
  // The rules preserve values

  /** An operand under an optional wrapper. */
  function Wrap(op: Op, x: Rat): Result<Rat, EvalError>
    requires Wrapper(op)
  {
    if op == Null then Ok(x) else Apply1(op, x)
  }

  lemma SubOfMinus(x: Rat, y: Rat)
    requires x.d != 0 && Canonical(y)
    ensures Rational.Sub(x, Rational.Minus(y)) == Rational.Add(x, y)
  {
    MinusOfCanonical(y);
    assert Rat(-(-y.n), y.d) == y;
  }

  lemma MinusOfDifference(x: Rat, y: Rat)
    requires Canonical(x) && y.d != 0
    ensures Rational.Add(Rational.Minus(x), y) == Rational.Minus(Rational.Sub(x, y))
  {
    var z := Rat(-y.n, y.d);
    MinusOfCanonical(x);
    NegateSum(x, z);
    assert Rat(-z.n, z.d) == y;
    assert Rational.Sub(x, y) == Rational.Add(x, z);
  }

  /** Rule t keeps the value of (op1 x) op2 (op3 y) whenever it is defined. */
  predicate DuoSoundFor(t: Duo, x: Rat, y: Rat)
  {
    var lx := Wrap(t.op1, x);
    var ly := Wrap(t.op3, y);
    lx.Ok? && ly.Ok? && Apply2(t.op2, lx.value, ly.value).Ok? ==>
      Apply2(t.op5, x, y).Ok? && Wrap(t.op4, Apply2(t.op5, x, y).value) == Apply2(t.op2, lx.value, ly.value)
  }

  // a + (-b) == a - b
  lemma AddMinusSound(x: Rat, y: Rat)
    requires Canonical(x) && Canonical(y)
    ensures DuoSoundFor(DuoRule(Null, Add, Minus, Null, Sub), x, y)
  {
    MinusOfCanonical(y);
  }

  // a - (-b) == a + b
  lemma SubMinusSound(x: Rat, y: Rat)
    requires Canonical(x) && Canonical(y)
    ensures DuoSoundFor(DuoRule(Null, Sub, Minus, Null, Add), x, y)
  {
    SubOfMinus(x, y);
  }

  // (-a) - b == -(a + b)
  lemma MinusSubSound(x: Rat, y: Rat)
    requires Canonical(x) && Canonical(y)
    ensures DuoSoundFor(DuoRule(Minus, Sub, Null, Minus, Add), x, y)
  {
    MinusOfCanonical(x);
    NegateSum(x, y);
  }

  // (-a) + b == -(a - b)
  lemma MinusAddSound(x: Rat, y: Rat)
    requires Canonical(x) && Canonical(y)
    ensures DuoSoundFor(DuoRule(Minus, Add, Null, Minus, Sub), x, y)
  {
    MinusOfDifference(x, y);
  }

  // (-a) * (-b) == a * b
  lemma MinusMulMinusSound(x: Rat, y: Rat)
    requires Canonical(x) && Canonical(y)
    ensures DuoSoundFor(DuoRule(Minus, Mul, Minus, Null, Mul), x, y)
  {
    MinusOfCanonical(x);
    MinusOfCanonical(y);
    MinusTimesMinus(x, y);
  }

  // (-a) / (-b) == a / b
  lemma MinusDivMinusSound(x: Rat, y: Rat)
    requires Canonical(x) && Canonical(y)
    ensures DuoSoundFor(DuoRule(Minus, Div, Minus, Null, Div), x, y)
  {
    MinusOfCanonical(x);
    MinusOfCanonical(y);
    if y.n != 0 {
      MinusOverMinus(x, y);
    }
  }

  // (-a) * b == -(a * b)
  lemma MinusMulSound(x: Rat, y: Rat)
    requires Canonical(x) && Canonical(y)
    ensures DuoSoundFor(DuoRule(Minus, Mul, Null, Minus, Mul), x, y)
  {
    MinusOfCanonical(x);
    MinusTimes(x, y);
  }

  // (-a) / b == -(a / b)
  lemma MinusDivSound(x: Rat, y: Rat)
    requires Canonical(x) && Canonical(y)
    ensures DuoSoundFor(DuoRule(Minus, Div, Null, Minus, Div), x, y)
  {
    MinusOfCanonical(x);
    if y.n != 0 {
      MinusOver(x, y);
    }
  }

  // a * (-b) == -(a * b)
  lemma MulMinusSound(x: Rat, y: Rat)
    requires Canonical(x) && Canonical(y)
    ensures DuoSoundFor(DuoRule(Null, Mul, Minus, Minus, Mul), x, y)
  {
    MinusOfCanonical(y);
    TimesMinus(x, y);
  }

  // a / (-b) == -(a / b)
  lemma DivMinusSound(x: Rat, y: Rat)
    requires Canonical(x) && Canonical(y)
    ensures DuoSoundFor(DuoRule(Null, Div, Minus, Minus, Div), x, y)
  {
    MinusOfCanonical(y);
    assert Wrap(Minus, y) == Ok(Rat(-y.n, y.d));
    if y.n != 0 {
      OverMinus(x, y);
      assert Apply2(Div, x, y) == Ok(Rational.Div(x, y));
      assert Apply2(Div, x, Rat(-y.n, y.d)) == Ok(Rational.Div(x, Rat(-y.n, y.d)));
    }
  }

  /** A square-root wrapper is the rational square root, its errors
      passed up. */
  lemma WrapSqrt(x: Rat)
    ensures Wrap(Sqrt, x).Ok? <==> Rational.Sqrt(x).Ok?
    ensures Wrap(Sqrt, x).Ok? ==> Wrap(Sqrt, x).value == Rational.Sqrt(x).value
  {
  }

  // sqrt(a) * sqrt(b) == sqrt(a * b)
  lemma SqrtMulSound(x: Rat, y: Rat)
    requires Canonical(x) && Canonical(y)
    ensures DuoSoundFor(DuoRule(Sqrt, Mul, Sqrt, Sqrt, Mul), x, y)
  {
    WrapSqrt(x);
    WrapSqrt(y);
    WrapSqrt(Rational.Mul(x, y));
    if Rational.Sqrt(x).Ok? && Rational.Sqrt(y).Ok? {
      SqrtMul(x, y);
    }
  }

  // sqrt(a) / sqrt(b) == sqrt(a / b)
  lemma SqrtDivSound(x: Rat, y: Rat)
    requires Canonical(x) && Canonical(y)
    ensures DuoSoundFor(DuoRule(Sqrt, Div, Sqrt, Sqrt, Div), x, y)
  {
    WrapSqrt(x);
    WrapSqrt(y);
    if y.n != 0 {
      WrapSqrt(Rational.Div(x, y));
    }
    if Rational.Sqrt(x).Ok? && Rational.Sqrt(y).Ok? && Rational.Sqrt(y).value.n != 0 {
      SqrtDiv(x, y);
    }
  }

  /** Every duo rule keeps the value of a defined expression. */
  lemma DuoSound(i: nat, x: Rat, y: Rat)
    requires i < |DuoRules| && Canonical(x) && Canonical(y)
    ensures DuoSoundFor(DuoRules[i], x, y)
  {
    if i <= 1 {
      assert DuoRules[i] == DuoRule(Null, Add, Minus, Null, Sub);
      AddMinusSound(x, y);
    } else if i == 2 {
      assert DuoRules[i] == DuoRule(Null, Sub, Minus, Null, Add);
      SubMinusSound(x, y);
    } else if i == 3 {
      assert DuoRules[i] == DuoRule(Minus, Sub, Null, Minus, Add);
      MinusSubSound(x, y);
    } else if i == 4 {
      assert DuoRules[i] == DuoRule(Minus, Add, Null, Minus, Sub);
      MinusAddSound(x, y);
    } else if i == 5 {
      assert DuoRules[i] == DuoRule(Minus, Mul, Minus, Null, Mul);
      MinusMulMinusSound(x, y);
    } else if i == 6 {
      assert DuoRules[i] == DuoRule(Minus, Div, Minus, Null, Div);
      MinusDivMinusSound(x, y);
    } else if i == 7 {
      assert DuoRules[i] == DuoRule(Minus, Mul, Null, Minus, Mul);
      MinusMulSound(x, y);
    } else if i == 8 {
      assert DuoRules[i] == DuoRule(Minus, Div, Null, Minus, Div);
      MinusDivSound(x, y);
    } else if i == 9 {
      assert DuoRules[i] == DuoRule(Null, Mul, Minus, Minus, Mul);
      MulMinusSound(x, y);
    } else if i == 10 {
      assert DuoRules[i] == DuoRule(Null, Div, Minus, Minus, Div);
      DivMinusSound(x, y);
    } else if i == 11 {
      assert DuoRules[i] == DuoRule(Sqrt, Mul, Sqrt, Sqrt, Mul);
      SqrtMulSound(x, y);
    } else {
      assert DuoRules[i] == DuoRule(Sqrt, Div, Sqrt, Sqrt, Div);
      SqrtDivSound(x, y);
    }
  }

  lemma NormalizeOfZero(d: int)
    requires d != 0
    ensures Normalize(Rat(0, d)).n == 0
  {
  }

  /** Each trio rule keeps the value of a defined expression; for a/(b/c)
      that needs b != 0, which holds because b/c is a divisor. */
  lemma TrioSound(i: nat, x: Rat, y: Rat, z: Rat)
    requires i < |TrioRules| && Canonical(x) && Canonical(y) && Canonical(z)
    requires Apply2(TrioRules[i].op2, y, z).Ok?
    requires Apply2(TrioRules[i].op1, x, Apply2(TrioRules[i].op2, y, z).value).Ok?
    ensures Apply2(TrioRules[i].op3, x, y).Ok?
    ensures Apply2(TrioRules[i].op4, Apply2(TrioRules[i].op3, x, y).value, z)
         == Apply2(TrioRules[i].op1, x, Apply2(TrioRules[i].op2, y, z).value)
  {
    if i == 0 {
      AddAssoc(x, y, z);
    } else if i == 1 {
      SubAssoc(x, y, z);
    } else if i == 2 {
      MulAssoc(x, y, z);
    } else {
      if y.n == 0 {
        NormalizeOfZero(y.d * z.n);
      }
      DivOfDiv(x, y, z);
    }
  }

  // ---------------------------------------------------------------------
  // Evaluation of the rewritten trees

  lemma EvalBinary(n: Node)
    requires IsBinary(n.op) && n.left.Some? && n.right.Some? && Eval(n).Ok?
    ensures Eval(n.left.value).Ok? && Eval(n.right.value).Ok?
    ensures Eval(n) == Apply2(n.op, Eval(n.left.value).value, Eval(n.right.value).value)
  {
  }

  lemma EvalUnary(n: Node)
    requires IsUnary(n.op) && n.left.Some? && n.right.None? && Eval(n).Ok?
    ensures Eval(n.left.value).Ok? && Eval(n) == Apply1(n.op, Eval(n.left.value).value)
  {
  }

  lemma EvalOfBinary(op: Op, a: Node, b: Node, v: Rat)
    requires IsBinary(op) && Eval(a).Ok? && Eval(b).Ok?
    ensures Eval(Node(Some(a), Some(b), v, op)) == Apply2(op, Eval(a).value, Eval(b).value)
  {
  }

  lemma EvalOfUnary(op: Op, a: Node, v: Rat)
    requires IsUnary(op) && Eval(a).Ok?
    ensures Eval(Node(Some(a), None, v, op)) == Apply1(op, Eval(a).value)
  {
    var n := Node(Some(a), None, v, op);
    assert n.op != Null && Code(n.op) >= Code(Fact) && n.right.None? && n.left.Some?;
  }

  /** The operands of a tree that evaluates can be simplified too. */
  lemma OperandsReady(n: Node)
    requires WellFormed(n) && LeavesCanonical(n) && Eval(n).Ok?
    ensures n.left.Some? ==> WellFormed(n.left.value) && LeavesCanonical(n.left.value) && Eval(n.left.value).Ok?
    ensures n.right.Some? ==> WellFormed(n.right.value) && LeavesCanonical(n.right.value) && Eval(n.right.value).Ok?
    ensures n.left.Some? ==> Size(n.left.value) < Size(n)
    ensures n.right.Some? ==> Size(n.right.value) < Size(n)
  {
    EvalNeedsShape(n);
  }

  /** A unary operator over a well-formed operand. */
  lemma WrappedNode(op: Op, s: Node)
    requires IsUnary(op) && WellFormed(s) && LeavesCanonical(s)
    ensures WellFormed(Node(Some(s), None, BadRat, op)) && LeavesCanonical(Node(Some(s), None, BadRat, op))
  {
  }

  /** An operand under a wrapper evaluates to the wrapped value. */
  lemma EvalWrapped(w: Op, m: Node, a: Node)
    requires Wrapper(w) && WellFormed(m) && LeavesCanonical(m) && Eval(m).Ok?
    requires w == Null ==> a == m
    requires w != Null ==> m.op == w && m.left.Some? && a == m.left.value
    ensures Eval(a).Ok? && Canonical(Eval(a).value) && Eval(m) == Wrap(w, Eval(a).value)
  {
    if w != Null {
      EvalUnary(m);
    }
    EvalCanonical(a);
  }

  /** The evaluation side of a duo rewrite: with operands a and b that
      evaluate like the matched ones, a op5 b is defined and, wrapped in op4,
      gives the value of n. */
  lemma DuoEval(n: Node, t: Duo, a: Node, b: Node)
    requires t in DuoRules && WellFormed(n) && LeavesCanonical(n) && Eval(n).Ok? && DuoMatches(n, t)
    requires Eval(a) == Eval(DuoLeft(n, t)) && Eval(b) == Eval(DuoRight(n, t))
    ensures Eval(Node(Some(a), Some(b), BadRat, t.op5)).Ok?
    ensures Wrap(t.op4, Eval(Node(Some(a), Some(b), BadRat, t.op5)).value) == Eval(n)
  {
    var i :| 0 <= i < |DuoRules| && DuoRules[i] == t;
    EvalBinary(n);
    EvalWrapped(t.op1, n.left.value, DuoLeft(n, t));
    EvalWrapped(t.op3, n.right.value, DuoRight(n, t));
    var x, y := Eval(a).value, Eval(b).value;
    DuoSound(i, x, y);
    EvalOfBinary(t.op5, a, b, BadRat);
  }

  /** The evaluation side of a trio rewrite. */
  lemma TrioEval(n: Node, t: Trio, a: Node, b: Node)
    requires t in TrioRules && WellFormed(n) && LeavesCanonical(n) && Eval(n).Ok? && TrioMatches(n, t)
    requires WellFormed(n.right.value)
    requires Eval(a) == Eval(n.left.value) && Eval(b) == Eval(n.right.value.left.value)
    ensures Eval(Node(Some(a), Some(b), BadRat, t.op3)).Ok?
    ensures Eval(n.right.value.right.value).Ok?
    ensures Apply2(t.op4, Eval(Node(Some(a), Some(b), BadRat, t.op3)).value,
                   Eval(n.right.value.right.value).value) == Eval(n)
  {
    var i :| 0 <= i < |TrioRules| && TrioRules[i] == t;
    var bc := n.right.value;
    assert WellFormed(bc) && LeavesCanonical(bc);
    EvalBinary(n);
    EvalBinary(bc);
    EvalCanonical(n.left.value);
    EvalCanonical(bc.left.value);
    EvalCanonical(bc.right.value);
    TrioSound(i, Eval(a).value, Eval(b).value, Eval(bc.right.value).value);
    EvalOfBinary(t.op3, a, b, BadRat);
  }

  /** -(-a) has the value of a. */
  lemma {:induction false} MinusMinusEval(n: Node)
    requires WellFormed(n) && LeavesCanonical(n) && Eval(n).Ok?
    requires n.op == Minus && n.left.value.op == Minus && WellFormed(n.left.value)
    ensures Eval(n.left.value.left.value) == Eval(n)
  {
    var m := n.left.value;
    var a := m.left.value;
    assert Eval(m).Ok? && Eval(n) == Ok(Rational.Minus(Eval(m).value)) by {
      EvalMinusNode(n);
    }
    assert Eval(a).Ok? && Eval(m) == Ok(Rational.Minus(Eval(a).value)) by {
      EvalMinusNode(m);
    }
    assert Canonical(Eval(a).value) by {
      OperandsReady(n);
      OperandsReady(m);
      EvalCanonical(a);
    }
    MinusTwice(Eval(a).value, Eval(m).value, Eval(n).value);
  }

  lemma MinusTwice(x: Rat, y: Rat, z: Rat)
    requires Canonical(x) && y == Rational.Minus(x) && z == Rational.Minus(y)
    ensures z == x
  {
    MinusOfCanonical(x);
  }

  lemma EvalMinusNode(n: Node)
    requires n.op == Minus && Eval(n).Ok?
    ensures n.left.Some? && Eval(n.left.value).Ok?
    ensures Eval(n) == Ok(Rational.Minus(Eval(n.left.value).value))
  {
    EvalNeedsShape(n);
    EvalUnary(n);
  }

  /** The value-level fact behind dropping a minus under an even power. */
  lemma PowMinusSound(x: Rat, e: Rat)
    requires Canonical(x) && Canonical(e) && Even(e)
    requires Apply2(Pow, Rational.Minus(x), e).Ok?
    ensures Apply2(Pow, x, e) == Apply2(Pow, Rational.Minus(x), e)
  {
    PowOfMinusEven(x, e);
  }

  /** (-a)^e has the value of a^e when e is even. */
  lemma PowMinusEval(n: Node, a: Node, b: Node)
    requires WellFormed(n) && LeavesCanonical(n) && Eval(n).Ok?
    requires n.op == Pow && n.left.value.op == Minus && WellFormed(n.left.value)
    requires Eval(n.right.value).Ok? && Even(Eval(n.right.value).value)
    requires Eval(a) == Eval(n.left.value.left.value) && Eval(b) == Eval(n.right.value)
    ensures Eval(Node(Some(a), Some(b), BadRat, Pow)) == Eval(n)
  {
    var m := n.left.value;
    assert LeavesCanonical(m);
    EvalBinary(n);
    EvalWrapped(Minus, m, m.left.value);
    EvalCanonical(n.right.value);
    PowMinusSound(Eval(m.left.value).value, Eval(n.right.value).value);
    EvalOfBinary(Pow, a, b, BadRat);
  }

  /** Replacing the operands by ones with the same values keeps the value. */
  lemma ChildrenEval(n: Node, l: Option<Node>, r: Option<Node>)
    requires WellFormed(n) && Eval(n).Ok?
    requires l.Some? == n.left.Some? && r.Some? == n.right.Some?
    requires l.Some? ==> Eval(l.value) == Eval(n.left.value)
    requires r.Some? ==> Eval(r.value) == Eval(n.right.value)
    ensures Eval(Node(l, r, n.val, n.op)) == Eval(n)
  {
  }

  // ---------------------------------------------------------------------
  // The rewrites decrease the order

  /** A duo rewrite drops at least one wrapper, so a op5 b is smaller than n. */
  lemma DuoShrinks(n: Node, t: Duo, a: Node, b: Node)
    requires WellFormed(n) && DuoMatches(n, t)
    requires Size(a) <= Size(DuoLeft(n, t)) && Size(b) <= Size(DuoRight(n, t))
    ensures Size(Node(Some(a), Some(b), BadRat, t.op5)) < Size(n)
  {
  }

  /** A duo rewrite that moves a sign out of one operand (or a root out of
      both) gives a smaller tree. */
  lemma DuoWrappedBelow(n: Node, t: Duo, a: Node, b: Node, s: Node)
    requires WellFormed(n) && DuoMatches(n, t) && t.op4 != Null
    requires AtMost(a, DuoLeft(n, t)) && AtMost(b, DuoRight(n, t))
    requires AtMost(s, Node(Some(a), Some(b), BadRat, t.op5))
    ensures Below(Node(Some(s), None, BadRat, t.op4), n)
  {
    var m := Node(Some(a), Some(b), BadRat, t.op5);
    var p := Node(Some(DuoLeft(n, t)), Some(DuoRight(n, t)), BadRat, t.op5);
    var q := Node(Some(p), None, BadRat, t.op4);
    Compose(m, p);
    AtMostTrans(s, m, p);
    Compose(Node(Some(s), None, BadRat, t.op4), q);
    assert Below(q, n);
    BelowAtMost(Node(Some(s), None, BadRat, t.op4), q, n);
  }

  /** Re-associating a op1 (b op2 c) to (a op3 b) op4 c gives a smaller tree. */
  lemma TrioBelow(n: Node, t: Trio, a: Node, b: Node, s: Node, c: Node)
    requires WellFormed(n) && TrioMatches(n, t) && WellFormed(n.right.value)
    requires AtMost(a, n.left.value) && AtMost(b, n.right.value.left.value)
    requires AtMost(s, Node(Some(a), Some(b), BadRat, t.op3))
    requires AtMost(c, n.right.value.right.value)
    ensures Size(Node(Some(a), Some(b), BadRat, t.op3)) < Size(n)
    ensures Below(Node(Some(s), Some(c), BadRat, t.op4), n)
  {
    var bc := n.right.value;
    var m := Node(Some(a), Some(b), BadRat, t.op3);
    var p := Node(Some(n.left.value), Some(bc.left.value), BadRat, t.op3);
    var q := Node(Some(p), Some(bc.right.value), BadRat, t.op4);
    Compose(m, p);
    AtMostTrans(s, m, p);
    Compose(Node(Some(s), Some(c), BadRat, t.op4), q);
    assert Below(q, n);
    BelowAtMost(Node(Some(s), Some(c), BadRat, t.op4), q, n);
  }

  /** One pass of the duo loop in Simplify: the tree is unchanged exactly
      while no rule so far has fired, and once changed it stays smaller. */
  lemma DuoLoopStep(n: Node, n1: Node, next: Node, i: nat)
    requires WellFormed(n) && WellFormed(n1) && i < |DuoRules|
    requires n1 == n <==> NoDuoBefore(n, i)
    requires n1 != n ==> Below(n1, n)
    requires DuoMatches(n1, DuoRules[i]) ==> Below(next, n1)
    requires !DuoMatches(n1, DuoRules[i]) ==> next == n1
    ensures next == n <==> NoDuoBefore(n, i + 1)
    ensures next != n ==> Below(next, n)
  {
    if n1 != n && DuoMatches(n1, DuoRules[i]) {
      BelowAtMost(next, n1, n);
    }
  }

  /** One pass of the trio loop in Simplify. */
  lemma TrioLoopStep(n: Node, n1: Node, next: Node, i: nat)
    requires WellFormed(n) && WellFormed(n1) && i < |TrioRules|
    requires n1 == n <==> NoTrioBefore(n, i)
    requires n1 != n ==> Below(n1, n)
    requires TrioMatches(n1, TrioRules[i]) ==> Below(next, n1)
    requires !TrioMatches(n1, TrioRules[i]) ==> next == n1
    ensures next == n <==> NoTrioBefore(n, i + 1)
    ensures next != n ==> Below(next, n)
  {
    if n1 != n && TrioMatches(n1, TrioRules[i]) {
      BelowAtMost(next, n1, n);
    }
  }

  // ---------------------------------------------------------------------
  // The rewriting itself

  /** Go's transformDuo: rewrite (op1 a) op2 (op3 b) into op4 (a op5 b),
      simplifying a, b and (when op4 wraps it) a op5 b; any other tree is
      returned unchanged. */
  method TransformDuo(n: Node, t: Duo) returns (r: Node)
    requires t in DuoRules && WellFormed(n) && LeavesCanonical(n) && Eval(n).Ok?
    ensures WellFormed(r) && LeavesCanonical(r) && Eval(r) == Eval(n)
    ensures DuoMatches(n, t) ==> Below(r, n)
    ensures !DuoMatches(n, t) ==> r == n
    decreases Size(n), RightWeight(n), MinusCount(n), MinusWeight(n), 1
  {
    if n.op != t.op2 {
      return n;
    }
    var l, rt := n.left.value, n.right.value;
    OperandsReady(n);
    OperandsReady(l);
    OperandsReady(rt);
    var a, b: Node;
    if l.op == t.op1 && l.left.Some? {
      a := Simplify(l.left.value);
    } else if t.op1 == Null {
      a := Simplify(l);
    } else {
      return n;
    }
    if rt.op == t.op3 && rt.left.Some? {
      b := Simplify(rt.left.value);
    } else if t.op3 == Null {
      b := Simplify(rt);
    } else {
      return n;
    }
    r := DuoRewrite(n, t, a, b);
  }

  /** The end of transformDuo: a op5 b, wrapped in op4 after simplifying
      it when op4 is not Null. */
  method DuoRewrite(n: Node, t: Duo, a: Node, b: Node) returns (r: Node)
    requires t in DuoRules && WellFormed(n) && LeavesCanonical(n) && Eval(n).Ok? && DuoMatches(n, t)
    requires WellFormed(a) && LeavesCanonical(a) && Eval(a) == Eval(DuoLeft(n, t)) && AtMost(a, DuoLeft(n, t))
    requires WellFormed(b) && LeavesCanonical(b) && Eval(b) == Eval(DuoRight(n, t)) && AtMost(b, DuoRight(n, t))
    ensures WellFormed(r) && LeavesCanonical(r) && Eval(r) == Eval(n)
    ensures Below(r, n)
    decreases Size(n), RightWeight(n), MinusCount(n), MinusWeight(n), 0
  {
    var m := Node(Some(a), Some(b), BadRat, t.op5);
    assert WellFormed(m) && LeavesCanonical(m);
    DuoEval(n, t, a, b);
    DuoShrinks(n, t, a, b);
    if t.op4 == Null {
      r := m;
    } else {
      var s := Simplify(m);
      r := Node(Some(s), None, BadRat, t.op4);
      WrappedNode(t.op4, s);
      EvalOfUnary(t.op4, s, BadRat);
      DuoWrappedBelow(n, t, a, b, s);
    }
  }

  /** Go's transformTrio: rewrite a op1 (b op2 c) into (a op3 b) op4 c,
      simplifying every part; any other tree is returned unchanged. */
  method TransformTrio(n: Node, t: Trio) returns (r: Node)
    requires t in TrioRules && WellFormed(n) && LeavesCanonical(n) && Eval(n).Ok?
    ensures WellFormed(r) && LeavesCanonical(r) && Eval(r) == Eval(n)
    ensures TrioMatches(n, t) ==> Below(r, n)
    ensures !TrioMatches(n, t) ==> r == n
    decreases Size(n), RightWeight(n), MinusCount(n), MinusWeight(n), 1
  {
    if !(n.op == t.op1 && n.right.value.op == t.op2) {
      return n;
    }
    var bc := n.right.value;
    assert WellFormed(bc) && LeavesCanonical(bc);
    EvalBinary(n);
    EvalBinary(bc);
    var a := Simplify(n.left.value);
    var b := Simplify(bc.left.value);
    var m := Node(Some(a), Some(b), BadRat, t.op3);
    TrioEval(n, t, a, b);
    TrioBelow(n, t, a, b, m, bc.right.value);
    var s := Simplify(m);
    var c := Simplify(bc.right.value);
    r := Node(Some(s), Some(c), BadRat, t.op4);
    EvalOfBinary(t.op4, s, c, BadRat);
    TrioBelow(n, t, a, b, s, c);
  }

  /** Go's Simplify: bring a tree to the canonical form the search
      deduplicates on. Go aborts when a rewrite changes the value; here the
      value is proved unchanged. The result is a fixed point, a fixed point
      is returned as it is, and the result is never larger. */
  method Simplify(n: Node) returns (r: Node)
    requires WellFormed(n) && LeavesCanonical(n) && Eval(n).Ok?
    ensures WellFormed(r) && LeavesCanonical(r) && Eval(r) == Eval(n)
    ensures AtMost(r, n) && (r != n ==> Below(r, n))
    ensures Stable(r)
    ensures Stable(n) ==> r == n
    decreases Size(n), RightWeight(n), MinusCount(n), MinusWeight(n), 4
  {
    var n1: Node;
    if n.op == Minus && n.left.value.op == Minus {
      var m := n.left.value;
      OperandsReady(n);
      OperandsReady(m);
      MinusMinusEval(n);
      n1 := Simplify(m.left.value);
      BelowAtMost(n1, m.left.value, n);
      assert n1 != n && !Stable(n);
    } else if n.op == Pow && n.left.value.op == Minus {
      var m := n.left.value;
      OperandsReady(n);
      OperandsReady(m);
      var e := Eval(n.right.value);
      if e.Ok? && Even(e.value) {
        var a := Simplify(m.left.value);
        var b := Simplify(n.right.value);
        n1 := Node(Some(a), Some(b), BadRat, Pow);
        PowMinusEval(n, a, b);
        assert Below(n1, n) && !Stable(n);
      } else {
        n1 := n;
        assert Stable(n);
      }
    } else {
      n1 := RewriteByRules(n);
    }
    if n1 != n {
      // Go re-evaluates both trees here and aborts when they differ.
      assert Eval(n1) == Eval(n);
      r := Simplify(n1);
      BelowAtMost(r, n1, n);
    } else {
      r := n;
    }
  }

  /** The last branch of Go's Simplify: pass the tree through every duo
      rule and then every trio rule, in table order; when none fires,
      simplify the operands instead. The tree comes back unchanged exactly
      when it is a fixed point. */
  method RewriteByRules(n: Node) returns (n1: Node)
    requires WellFormed(n) && LeavesCanonical(n) && Eval(n).Ok?
    requires !(n.op == Minus && n.left.value.op == Minus) && !(n.op == Pow && n.left.value.op == Minus)
    ensures WellFormed(n1) && LeavesCanonical(n1) && Eval(n1) == Eval(n)
    ensures n1 == n <==> Stable(n)
    ensures n1 != n ==> Below(n1, n)
    decreases Size(n), RightWeight(n), MinusCount(n), MinusWeight(n), 3
  {
    var d := DuoPass(n);
    n1 := TrioPass(d);
    if d != n {
      BelowAtMost(n1, d, n);
    } else if n1 == n {
      n1 := SimplifyOperands(n);
    }
  }

  /** The duo loop of Go's Simplify: each rule of the table in turn,
      applied to the result of the one before. */
  method DuoPass(n: Node) returns (n1: Node)
    requires WellFormed(n) && LeavesCanonical(n) && Eval(n).Ok?
    ensures WellFormed(n1) && LeavesCanonical(n1) && Eval(n1) == Eval(n)
    ensures n1 == n <==> NoDuoBefore(n, |DuoRules|)
    ensures n1 != n ==> Below(n1, n)
    decreases Size(n), RightWeight(n), MinusCount(n), MinusWeight(n), 2
  {
    n1 := n;
    var i := 0;
    while i < |DuoRules|
      invariant 0 <= i <= |DuoRules|
      invariant WellFormed(n1) && LeavesCanonical(n1) && Eval(n1) == Eval(n)
      invariant n1 == n <==> NoDuoBefore(n, i)
      invariant n1 != n ==> Below(n1, n)
    {
      var next := TransformDuo(n1, DuoRules[i]);
      DuoLoopStep(n, n1, next, i);
      n1 := next;
      i := i + 1;
    }
  }

  /** The trio loop of Go's Simplify. */
  method TrioPass(n: Node) returns (n1: Node)
    requires WellFormed(n) && LeavesCanonical(n) && Eval(n).Ok?
    ensures WellFormed(n1) && LeavesCanonical(n1) && Eval(n1) == Eval(n)
    ensures n1 == n <==> NoTrioBefore(n, |TrioRules|)
    ensures AtMost(n1, n) && (n1 != n ==> Below(n1, n))
    decreases Size(n), RightWeight(n), MinusCount(n), MinusWeight(n), 2
  {
    n1 := n;
    var i := 0;
    while i < |TrioRules|
      invariant 0 <= i <= |TrioRules|
      invariant WellFormed(n1) && LeavesCanonical(n1) && Eval(n1) == Eval(n)
      invariant n1 == n <==> NoTrioBefore(n, i)
      invariant n1 != n ==> Below(n1, n)
    {
      var next := TransformTrio(n1, TrioRules[i]);
      TrioLoopStep(n, n1, next, i);
      n1 := next;
      i := i + 1;
    }
  }

  /** The fallback of Go's Simplify when no rule fires: simplify each
      operand and rebuild the node, keeping its operator and `val`, when
      one of them changed. */
  method SimplifyOperands(n: Node) returns (n1: Node)
    requires WellFormed(n) && LeavesCanonical(n) && Eval(n).Ok?
    ensures WellFormed(n1) && LeavesCanonical(n1) && Eval(n1) == Eval(n)
    ensures n1 == n <==> (n.left.Some? ==> Stable(n.left.value)) && (n.right.Some? ==> Stable(n.right.value))
    ensures n1 != n ==> Below(n1, n)
    decreases Size(n), RightWeight(n), MinusCount(n), MinusWeight(n), 2
  {
    n1 := n;
    var l, rt := n.left, n.right;
    OperandsReady(n);
    if n.left.Some? {
      var x := Simplify(n.left.value);
      l := Some(x);
    }
    if n.right.Some? {
      var y := Simplify(n.right.value);
      rt := Some(y);
    }
    if l != n.left || rt != n.right {
      n1 := Node(l, rt, n.val, n.op);
      ChildrenEval(n, l, rt);
      Compose(n1, n);
    }
  }
}
