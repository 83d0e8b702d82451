/** The search for formulas (solution.go). A solution is a value obtained
    from the digits digits[start:end]; the registry maps each solution to
    the simplified formulas found for it so far. `AllUnary` applies the
    unary operators repeatedly, `AllBinary` joins two adjacent solutions
    with each binary operator, and `FindAllSolutions` splits the digits at
    every position and combines the solutions of both halves.

    Go keeps the registry and `maxDepth` in package variables; here they
    are the fields of one `Registry` object, and every operation that adds
    formulas is a method of it. */
module Solutions {
  import opened Wrappers
  import IntMath
  import opened Text
  import opened Rational
  import opened Nodes
  import opened Simplification

  // ---------------------------------------------------------------------
  // Solutions and the value operations they use

  /** The value of a formula and the digit span [start, end) it uses. Go
      compares solutions as map keys, field by field; so does `==` here. */
  datatype Solution = Solution(val: Rat, start: int, end: int)

  /** Go's NoSolution: the zero fraction 0/0 over the span [-1, -1). */
  const NoSolution: Solution := Solution(BadRat, -1, -1)

  /** Go's PerformUnary: the unary operation of a formula root applied to a
      value. Its Go text is not part of this model; the package's tests
      (rational_test.go:53-61) call it and expect the operations of
      rational.go, so it is the evaluation of a unary node: 0! = 1, 1! = 1,
      2! = 2, then the table of math.go up to 20!. */
  function PerformUnary(op: Op, v: Rat): (r: Result<Rat, EvalError>)
    requires IsUnary(op)
  {
    if op == Fact then
      var f := Rational.Fact(v);
      if f.Ok? then Ok(f.value) else Err(Arithmetic(f.error))
    else Apply1(op, v)
  }

  /** The factorial succeeds exactly on the integers 0..20, where it is n!,
      and gives back its argument exactly on 1 and 2; the square root is
      rational.go's and the negation always succeeds. */
  lemma PerformUnaryMeans(op: Op, v: Rat)
    requires IsUnary(op)
    ensures op == Fact ==> (PerformUnary(op, v).Ok? <==> v.d == 1 && 0 <= v.n <= IntMath.MaxFactorial)
    ensures op == Fact && PerformUnary(op, v).Ok? ==>
      PerformUnary(op, v).value == Rat(IntMath.Factorial(v.n), 1)
      && (PerformUnary(op, v).value == v <==> v.n == 1 || v.n == 2)
    ensures op == Sqrt ==>
      (PerformUnary(op, v).Ok? <==> Rational.Sqrt(v).Ok?)
      && (PerformUnary(op, v).Ok? ==> PerformUnary(op, v).value == Rational.Sqrt(v).value)
    ensures op == Minus ==> PerformUnary(op, v) == Ok(Rational.Minus(v))
  {
    if op == Fact {
      FactCorrect(v);
      if PerformUnary(op, v).Ok? && v.n >= 3 {
        FactorialGrows(v.n);
      }
    }
  }

  /** Go's One and MinusOne compare the normalized value with 1 and -1. */
  predicate One(v: Rat)
  {
    Rational.Equal(v, Rat(1, 1))
  }

  predicate MinusOne(v: Rat)
  {
    Rational.Equal(v, Rat(-1, 1))
  }

  /** On canonical values One and MinusOne are plain comparisons. */
  lemma OneMeans(v: Rat)
    requires Canonical(v)
    ensures One(v) <==> v == Rat(1, 1)
    ensures MinusOne(v) <==> v == Rat(-1, 1)
  {
    NormalizeOfCanonical(v);
    IntegerCanonical(1);
    IntegerCanonical(-1);
    NormalizeOfCanonical(Rat(1, 1));
    NormalizeOfCanonical(Rat(-1, 1));
  }

  // ---------------------------------------------------------------------
  // What the registry holds

  /** A formula stored for value v: well formed, with canonical leaves, in
      simplified form and evaluating to v. */
  predicate Formula(n: Node, v: Rat)
  {
    WellFormed(n) && LeavesCanonical(n) && Eval(n) == Ok(v) && Stable(n)
  }

  /** The formulas of one key: at least one, pairwise not Equal, a single
      one when maxDepth is 0, and every one after the first no deeper than
      maxDepth (the first is stored whatever its depth). */
  predicate Stored(v: Rat, l: seq<Node>, maxDepth: int)
  {
    |l| > 0
    && (maxDepth == 0 ==> |l| == 1)
    && (forall i :: 0 <= i < |l| ==> Formula(l[i], v) && (i > 0 ==> Depth(l[i]) <= maxDepth))
    && (forall i, j :: 0 <= i < j < |l| ==> !Nodes.Equal(l[j], Some(l[i])))
  }

  /** Go's solutions[s]: the formulas of s, none for a missing key. */
  function Lookup(m: map<Solution, seq<Node>>, s: Solution): (l: seq<Node>)
    ensures s !in m ==> l == []
  {
    if s in m then m[s] else []
  }

  /** Add appends w to the formulas l of its key: when l is empty, or when
      maxDepth is not 0, w is no deeper than maxDepth, and w is not Equal to
      any formula in l. */
  predicate Admits(l: seq<Node>, w: Node, maxDepth: int)
    requires WellFormed(w)
  {
    (l != [] ==> maxDepth != 0 && Depth(w) <= maxDepth)
    && forall i :: 0 <= i < |l| ==> !Nodes.Equal(w, Some(l[i]))
  }

  /** Appending an admitted formula keeps a key's formulas stored. */
  lemma StoredAppend(v: Rat, l: seq<Node>, w: Node, maxDepth: int)
    requires l == [] || Stored(v, l, maxDepth)
    requires Formula(w, v) && Admits(l, w, maxDepth)
    ensures Stored(v, l + [w], maxDepth)
  {
    var l1 := l + [w];
    forall i, j | 0 <= i < j < |l1|
      ensures !Nodes.Equal(l1[j], Some(l1[i]))
    {
      if j == |l| {
        assert l1[j] == w && l1[i] == l[i];
      }
    }
  }

  /** Replacing the formulas of one key by stored ones keeps the whole map
      stored. */
  lemma StoredUpdate(m: map<Solution, seq<Node>>, s: Solution, l: seq<Node>, maxDepth: int)
    requires AllStored(m, maxDepth)
    requires Stored(s.val, l, maxDepth)
    ensures AllStored(m[s := l], maxDepth)
  {
    forall k | k in m[s := l]
      ensures Stored(k.val, Entry(m[s := l], k), maxDepth)
    {
      if k != s {
        assert Stored(k.val, Entry(m, k), maxDepth);
      }
    }
  }

  /** m[k], named so that the quantifier of AllStored is instantiated only
      where a proof asks for it. */
  function Entry(m: map<Solution, seq<Node>>, k: Solution): seq<Node>
    requires k in m
  {
    m[k]
  }

  /** Every key of m has stored formulas. */
  predicate AllStored(m: map<Solution, seq<Node>>, maxDepth: int)
  {
    forall k {:trigger Entry(m, k)} :: k in m ==> Stored(k.val, Entry(m, k), maxDepth)
  }

  /** Every list of the old registry is a prefix of its new list: formulas
      are only ever appended. */
  predicate Grows(before: map<Solution, seq<Node>>, after: map<Solution, seq<Node>>)
  {
    forall k {:trigger Lookup(before, k)} :: k in before ==> k in after && Lookup(before, k) <= Lookup(after, k)
  }

  /** after differs from before only in the formulas of key, and those
      only by formulas appended at the end. */
  ghost predicate Extends(before: map<Solution, seq<Node>>, after: map<Solution, seq<Node>>, key: Solution)
  {
    Grows(before, after) && forall k :: k != key ==> Lookup(after, k) == Lookup(before, k)
  }

  lemma ExtendsTrans(a: map<Solution, seq<Node>>, b: map<Solution, seq<Node>>, c: map<Solution, seq<Node>>,
    key: Solution)
    requires Extends(a, b, key) && Extends(b, c, key)
    ensures Extends(a, c, key)
  {
    GrowsTrans(a, b, c);
  }

  /** Appending to the formulas of one key extends the map at that key. */
  lemma ExtendsByAppend(m: map<Solution, seq<Node>>, key: Solution, w: Node)
    ensures Extends(m, m[key := Lookup(m, key) + [w]], key)
  {
  }

  lemma ExtendsRefl(m: map<Solution, seq<Node>>, key: Solution)
    ensures Extends(m, m, key)
  {
  }

  /** after grows from before, and only keys over one of the spans, as
      (start, end) pairs, gain formulas: every other key keeps its own. */
  ghost predicate GrowsAt(before: map<Solution, seq<Node>>, after: map<Solution, seq<Node>>, spans: set<(int, int)>)
  {
    Grows(before, after)
    && forall k :: Lookup(after, k) != Lookup(before, k) ==> (k.start, k.end) in spans
  }

  /** after grows from before, and only keys over digits inside [lo, hi)
      gain formulas. */
  ghost predicate GrowsWithin(before: map<Solution, seq<Node>>, after: map<Solution, seq<Node>>, lo: int, hi: int)
  {
    Grows(before, after)
    && forall k :: Lookup(after, k) != Lookup(before, k) ==> lo <= k.start && k.end <= hi
  }

  /** Changing the formulas of one key grows the map at that key's span. */
  lemma ExtendsGrowsAt(a: map<Solution, seq<Node>>, b: map<Solution, seq<Node>>, key: Solution)
    requires Extends(a, b, key)
    ensures GrowsAt(a, b, {(key.start, key.end)})
  {
  }

  lemma GrowsAtTrans(a: map<Solution, seq<Node>>, b: map<Solution, seq<Node>>, c: map<Solution, seq<Node>>,
    spans: set<(int, int)>)
    requires GrowsAt(a, b, spans) && GrowsAt(b, c, spans)
    ensures GrowsAt(a, c, spans)
  {
    GrowsTrans(a, b, c);
  }

  lemma GrowsAtWiden(a: map<Solution, seq<Node>>, b: map<Solution, seq<Node>>, spans: set<(int, int)>,
    more: set<(int, int)>)
    requires GrowsAt(a, b, spans) && spans <= more
    ensures GrowsAt(a, b, more)
  {
  }

  lemma GrowsWithinTrans(a: map<Solution, seq<Node>>, b: map<Solution, seq<Node>>, c: map<Solution, seq<Node>>,
    lo: int, hi: int)
    requires GrowsWithin(a, b, lo, hi) && GrowsWithin(b, c, lo, hi)
    ensures GrowsWithin(a, c, lo, hi)
  {
    GrowsTrans(a, b, c);
  }

  /** Spans inside [lo, hi) keep the growth inside it. */
  lemma GrowsAtWithin(a: map<Solution, seq<Node>>, b: map<Solution, seq<Node>>, spans: set<(int, int)>,
    lo: int, hi: int)
    requires GrowsAt(a, b, spans) && forall sp :: sp in spans ==> lo <= sp.0 && sp.1 <= hi
    ensures GrowsWithin(a, b, lo, hi)
  {
  }

  lemma GrowsWithinWiden(a: map<Solution, seq<Node>>, b: map<Solution, seq<Node>>, lo: int, hi: int,
    lo': int, hi': int)
    requires GrowsWithin(a, b, lo, hi) && lo' <= lo && hi <= hi'
    ensures GrowsWithin(a, b, lo', hi')
  {
  }

  /** A leaf of a canonical value is a formula for it. */
  lemma LeafFormula(v: Rat)
    requires Canonical(v)
    ensures Formula(Leaf(v), v)
  {
    LeafStable(v);
  }

  /** A leaf is in simplified form. */
  lemma LeafStable(v: Rat)
    ensures Stable(Leaf(v))
  {
    var n := Leaf(v);
    var i := 0;
    while i < |DuoRules|
      invariant i <= |DuoRules| && NoDuoBefore(n, i)
    {
      i := i + 1;
    }
    i := 0;
    while i < |TrioRules|
      invariant i <= |TrioRules| && NoTrioBefore(n, i)
    {
      i := i + 1;
    }
  }

  /** A unary root over n, as Go's `&Node{op: op, left: n}` builds it. */
  function Unary1(op: Op, n: Node): (r: Node)
    requires IsUnary(op)
    ensures r.op == op && r.left == Some(n) && r.right.None?
  {
    Node(Some(n), None, BadRat, op)
  }

  /** A binary root over l and r, as Go's `&Node{op: op, left: l, right: r}`. */
  function Binary2(op: Op, l: Node, r: Node): (n: Node)
    requires IsBinary(op)
    ensures n.op == op && n.left == Some(l) && n.right == Some(r)
  {
    Node(Some(l), Some(r), BadRat, op)
  }

  /** A formula for v under a unary root is a candidate formula for the
      value PerformUnary gives. */
  lemma UnaryCandidate(op: Op, n: Node, v: Rat)
    requires IsUnary(op) && WellFormed(n) && LeavesCanonical(n) && Eval(n) == Ok(v)
    requires PerformUnary(op, v).Ok?
    ensures WellFormed(Unary1(op, n)) && LeavesCanonical(Unary1(op, n))
    ensures Eval(Unary1(op, n)) == PerformUnary(op, v)
  {
    UnaryShape(op, n);
    EvalOfUnary(op, n, BadRat);
    PerformUnaryAgrees(op, v);
  }

  lemma UnaryShape(op: Op, n: Node)
    requires IsUnary(op) && WellFormed(n) && LeavesCanonical(n)
    ensures WellFormed(Unary1(op, n)) && LeavesCanonical(Unary1(op, n))
  {
  }

  lemma PerformUnaryAgrees(op: Op, v: Rat)
    requires IsUnary(op) && PerformUnary(op, v).Ok?
    ensures Apply1(op, v) == PerformUnary(op, v)
  {
  }

  /** Likewise for two formulas under a binary root. */
  lemma BinaryCandidate(op: Op, n1: Node, v1: Rat, n2: Node, v2: Rat)
    requires IsBinary(op) && Apply2(op, v1, v2).Ok?
    requires WellFormed(n1) && LeavesCanonical(n1) && Eval(n1) == Ok(v1)
    requires WellFormed(n2) && LeavesCanonical(n2) && Eval(n2) == Ok(v2)
    ensures WellFormed(Binary2(op, n1, n2)) && LeavesCanonical(Binary2(op, n1, n2))
    ensures Eval(Binary2(op, n1, n2)) == Apply2(op, v1, v2)
  {
    BinaryShape(op, n1, n2);
    EvalOfBinary(op, n1, n2, BadRat);
  }

  lemma BinaryShape(op: Op, n1: Node, n2: Node)
    requires IsBinary(op) && WellFormed(n1) && LeavesCanonical(n1) && WellFormed(n2) && LeavesCanonical(n2)
    ensures WellFormed(Binary2(op, n1, n2)) && LeavesCanonical(Binary2(op, n1, n2))
  {
  }

  /** The candidates Unary passes to Add, one per formula of its operand
      and in the same order: op over the formula, except that a minus is
      never put over a formula whose root is a minus. */
  function Wrapped(op: Op, l: seq<Node>): (r: seq<Node>)
    requires IsUnary(op)
    ensures |r| <= |l| && (op != Minus ==> |r| == |l|)
    ensures forall x :: x in r ==> x.left.Some? && x == Unary1(op, x.left.value) && x.left.value in l
    ensures op == Minus ==> forall x :: x in r ==> x.left.value.op != Minus
    ensures forall n :: n in l && !(op == Minus && n.op == Minus) ==> Unary1(op, n) in r
  {
    if l == [] then []
    else
      var n := l[|l| - 1];
      Wrapped(op, l[..|l| - 1]) + (if n.op == Minus && op == Minus then [] else [Unary1(op, n)])
  }

  /** The candidates Binary passes to Add for one left formula n1: op over
      n1 and each right formula, in order. The source skips a pair when op
      is a minus and the right formula is rooted at a minus; op is binary,
      so no pair is ever skipped. */
  function Row(op: Op, n1: Node, l2: seq<Node>): (r: seq<Node>)
    requires IsBinary(op)
    ensures |r| == |l2|
    ensures forall j :: 0 <= j < |r| ==> r[j] == Binary2(op, n1, l2[j])
  {
    if l2 == [] then []
    else
      var n2 := l2[|l2| - 1];
      Row(op, n1, l2[..|l2| - 1]) + (if op == Minus && n2.op == Minus then [] else [Binary2(op, n1, n2)])
  }

  /** All candidates of Binary: the rows of the left formulas, in order.
      Every pair of a left and a right formula is offered, and nothing else. */
  function Paired(op: Op, l1: seq<Node>, l2: seq<Node>): (r: seq<Node>)
    requires IsBinary(op)
    ensures forall x :: x in r ==>
      x.left.Some? && x.right.Some? && x == Binary2(op, x.left.value, x.right.value)
      && x.left.value in l1 && x.right.value in l2
    ensures forall n1, n2 :: n1 in l1 && n2 in l2 ==> Binary2(op, n1, n2) in r
  {
    if l1 == [] then []
    else
      var r0 := Paired(op, l1[..|l1| - 1], l2);
      var row := Row(op, l1[|l1| - 1], l2);
      assert forall n2 :: n2 in l2 ==> Binary2(op, l1[|l1| - 1], n2) in row by {
        forall n2 | n2 in l2
          ensures Binary2(op, l1[|l1| - 1], n2) in row
        {
          var j :| 0 <= j < |l2| && l2[j] == n2;
          assert row[j] == Binary2(op, l1[|l1| - 1], n2);
        }
      }
      r0 + row
  }

  /** Formulas that evaluate to v, as Add requires of its candidates. */
  predicate Candidates(l: seq<Node>, v: Rat)
  {
    forall x :: x in l ==> WellFormed(x) && LeavesCanonical(x) && Eval(x) == Ok(v)
  }

  lemma WrappedCandidates(op: Op, l: seq<Node>, v: Rat)
    requires IsUnary(op) && Candidates(l, v) && PerformUnary(op, v).Ok?
    ensures Candidates(Wrapped(op, l), PerformUnary(op, v).value)
  {
    forall x | x in Wrapped(op, l)
      ensures WellFormed(x) && LeavesCanonical(x) && Eval(x) == PerformUnary(op, v)
    {
      UnaryCandidate(op, x.left.value, v);
    }
  }

  lemma PairedCandidates(op: Op, l1: seq<Node>, v1: Rat, l2: seq<Node>, v2: Rat)
    requires IsBinary(op) && Candidates(l1, v1) && Candidates(l2, v2) && Apply2(op, v1, v2).Ok?
    ensures Candidates(Paired(op, l1, l2), Apply2(op, v1, v2).value)
  {
    forall x | x in Paired(op, l1, l2)
      ensures WellFormed(x) && LeavesCanonical(x) && Eval(x) == Apply2(op, v1, v2)
    {
      BinaryCandidate(op, x.left.value, v1, x.right.value, v2);
    }
  }

  /** w is candidate c as Add compares it: well formed, no larger in the
      order that Simplify decreases, and of the same value. */
  predicate Simplified(w: Node, c: Node)
  {
    WellFormed(w) && AtMost(w, c) && Eval(w) == Eval(c)
  }

  /** Each w in ws is the candidate at the same place in cs as Add compared
      it. */
  predicate Simplifications(ws: seq<Node>, cs: seq<Node>)
  {
    |ws| == |cs|
    && (ws == [] || (Simplifications(ws[..|ws| - 1], cs[..|cs| - 1]) && Simplified(ws[|ws| - 1], cs[|cs| - 1])))
  }

  lemma SimplificationsStep(ws: seq<Node>, cs: seq<Node>, i: int, w: Node)
    requires 0 <= i < |cs| && Simplifications(ws, cs[..i]) && Simplified(w, cs[i])
    requires AllWellFormed(ws)
    ensures Simplifications(ws + [w], cs[..i + 1]) && AllWellFormed(ws + [w])
  {
    assert (ws + [w])[..|ws|] == ws;
    assert cs[..i + 1][..i] == cs[..i];
  }

  lemma {:induction false} SimplificationsAt(ws: seq<Node>, cs: seq<Node>)
    requires Simplifications(ws, cs)
    ensures |ws| == |cs| && forall i :: 0 <= i < |ws| ==> Simplified(ws[i], cs[i])
  {
    if ws != [] {
      var n := |ws| - 1;
      SimplificationsAt(ws[..n], cs[..n]);
      forall i | 0 <= i < |ws|
        ensures Simplified(ws[i], cs[i])
      {
        if i < n {
          assert ws[..n][i] == ws[i] && cs[..n][i] == cs[i];
        } else {
          assert i == n;
        }
      }
    }
  }

  predicate AllWellFormed(ws: seq<Node>)
  {
    forall i :: 0 <= i < |ws| ==> WellFormed(ws[i])
  }

  /** The formulas of a key after Add has been offered the simplified
      candidates ws in order, starting from l. */
  function AddedTo(l: seq<Node>, ws: seq<Node>, maxDepth: int): seq<Node>
    requires AllWellFormed(ws)
  {
    if ws == [] then l
    else
      var w := ws[|ws| - 1];
      var l1 := AddedTo(l, ws[..|ws| - 1], maxDepth);
      if Admits(l1, w, maxDepth) then l1 + [w] else l1
  }

  lemma AddedToStep(l: seq<Node>, ws: seq<Node>, w: Node, maxDepth: int)
    requires AllWellFormed(ws)
    requires WellFormed(w)
    ensures AddedTo(l, ws + [w], maxDepth) ==
      var l1 := AddedTo(l, ws, maxDepth);
      if Admits(l1, w, maxDepth) then l1 + [w] else l1
  {
    assert (ws + [w])[..|ws|] == ws;
  }

  /** Once a key has a formula, a registry with maxDepth 0 adds no more. */
  lemma {:induction false} AddedToFirstOnly(l: seq<Node>, ws: seq<Node>)
    requires AllWellFormed(ws)
    requires l != []
    ensures AddedTo(l, ws, 0) == l
  {
    if ws != [] {
      AddedToFirstOnly(l, ws[..|ws| - 1]);
    }
  }

  /** Offering at least one candidate to a key leaves it with formulas:
      the first formula of a key is always admitted. */
  lemma {:induction false} AddedToNonEmpty(l: seq<Node>, ws: seq<Node>, maxDepth: int)
    requires AllWellFormed(ws)
    ensures AddedTo(l, ws, maxDepth) != [] <==> l != [] || ws != []
  {
    if ws != [] {
      var w := ws[|ws| - 1];
      AddedToNonEmpty(l, ws[..|ws| - 1], maxDepth);
      var l1 := AddedTo(l, ws[..|ws| - 1], maxDepth);
      if l1 == [] {
        assert Admits(l1, w, maxDepth);
      }
    }
  }

  /** Go's scan of the stored formulas in Add: whether one of them is
      Equal to x. */
  method HasEqual(x: Node, l: seq<Node>) returns (found: bool)
    requires WellFormed(x) && AllWellFormed(l)
    ensures found <==> exists j :: 0 <= j < |l| && Nodes.Equal(x, Some(l[j]))
  {
    var i := 0;
    while i < |l|
      invariant 0 <= i <= |l|
      invariant forall j :: 0 <= j < i ==> !Nodes.Equal(x, Some(l[j]))
    {
      if Nodes.Equal(x, Some(l[i])) {
        return true;
      }
      i := i + 1;
    }
    return false;
  }

  // ---------------------------------------------------------------------
  // Why the loops of AllUnary end

  /** From 3 on, n! exceeds n. */
  lemma {:induction false} FactorialGrows(n: nat)
    requires n >= 3
    ensures IntMath.Factorial(n) > n
  {
    if n == 3 {
      assert IntMath.Factorial(3) == 6 by {
        assert IntMath.Factorial(2) == 2 by {
          assert IntMath.Factorial(1) == 1 by { assert IntMath.Factorial(0) == 1; }
        }
      }
    } else {
      FactorialGrows(n - 1);
      IntMath.MulStrictMonotone(n, 1, IntMath.Factorial(n - 1));
    }
  }

  /** A factorial of a positive canonical value succeeds exactly on the
      integers 1..20; it gives back 1 and 2, and a larger integer from 3 on. */
  lemma FactClimbs(v: Rat)
    requires Canonical(v) && v.n > 0
    ensures PerformUnary(Fact, v).Ok? <==> v.d == 1 && v.n <= IntMath.MaxFactorial
    ensures PerformUnary(Fact, v).Ok? ==> PerformUnary(Fact, v).value == Rat(IntMath.Factorial(v.n), 1)
    ensures PerformUnary(Fact, v).Ok? && v.n < 3 ==> PerformUnary(Fact, v).value == v
    ensures PerformUnary(Fact, v).Ok? && v.n >= 3 ==> IntMath.Factorial(v.n) > v.n
  {
    FactCorrect(v);
    if v.d == 1 && 3 <= v.n <= IntMath.MaxFactorial {
      FactorialGrows(v.n);
    }
  }

  /** Unary's square root is the one of rational.go. */
  lemma PerformSqrt(v: Rat)
    ensures PerformUnary(Sqrt, v).Ok? <==> Rational.Sqrt(v).Ok?
    ensures PerformUnary(Sqrt, v).Ok? ==> PerformUnary(Sqrt, v).value == Rational.Sqrt(v).value
  {
  }

  /** A successful square root w of a canonical value v has v = w.n^2 / w.d^2. */
  lemma SqrtSquares(v: Rat, w: Rat)
    requires Canonical(v) && Rational.Sqrt(v) == Ok(w)
    ensures Canonical(w) && w.n >= 0 && v == Rat(w.n * w.n, w.d * w.d)
  {
    SqrtIsRoot(v);
    var sq := Rat(w.n * w.n, w.d * w.d);
    assert Canonical(sq) by {
      assert IntMath.Abs(w.n) == w.n;
      IntMath.CoprimeSquares(w.n, w.d);
      IntMath.MulStrictMonotone(w.d, 0, w.d);
      IntMath.MulMonotone(w.n, 0, w.n);
      assert IntMath.Abs(sq.n) == sq.n;
    }
    NormalizeOfCanonical(sq);
    assert Rational.Mul(w, w) == Normalize(sq);
  }

  lemma SquaresGrow(a: int, b: int)
    requires a >= 1 && b >= 1 && !(a == 1 && b == 1)
    ensures a + b < a * a + b * b
  {
    IntMath.MulMonotone(a, 1, a);
    IntMath.MulMonotone(b, 1, b);
    if a == 1 {
      IntMath.MulStrictMonotone(b, 1, b);
    } else {
      IntMath.MulStrictMonotone(a, 1, a);
    }
  }

  /** A successful square root of a positive canonical value other than 1
      is again such a value, with a smaller numerator plus denominator. */
  lemma SqrtShrinks(v: Rat)
    requires Canonical(v) && v.n > 0 && v != Rat(1, 1) && PerformUnary(Sqrt, v).Ok?
    ensures var w := PerformUnary(Sqrt, v).value;
      Canonical(w) && w.n > 0 && w != Rat(1, 1) && w.n + w.d < v.n + v.d
  {
    PerformSqrt(v);
    var w := Rational.Sqrt(v).value;
    SqrtSquares(v, w);
    assert w.n != 0;
    assert w != Rat(1, 1);
    SquaresGrow(w.n, w.d);
  }

  /** Minus of a canonical value flips the sign of its numerator. */
  lemma MinusStep(v: Rat)
    requires Canonical(v)
    ensures PerformUnary(Minus, v) == Ok(Rat(-v.n, v.d)) && Canonical(Rat(-v.n, v.d))
  {
    MinusOfCanonical(v);
    assert IntMath.Abs(-v.n) == IntMath.Abs(v.n);
  }

  /** A positive canonical value other than 1 is neither zero nor one, so
      Unary does not return it unchanged. */
  lemma NotTrivial(v: Rat)
    requires Canonical(v) && v.n > 0 && v != Rat(1, 1)
    ensures !Zero(v) && !One(v) && !MinusOne(v)
  {
    OneMeans(v);
  }

  /** Formulas are only ever appended, so Grows is transitive. */
  lemma GrowsTrans(a: map<Solution, seq<Node>>, b: map<Solution, seq<Node>>, c: map<Solution, seq<Node>>)
    requires Grows(a, b) && Grows(b, c)
    ensures Grows(a, c)
  {
    forall k | k in a
      ensures k in c && Lookup(a, k) <= Lookup(c, k)
    {
      assert Lookup(a, k) <= Lookup(b, k) && Lookup(b, k) <= Lookup(c, k);
    }
  }

  /** The measure of AllUnary's factorial loops: factorials climb until
      they leave the table, where the next one fails. */
  function FactRank(f: Solution): nat
  {
    if f == NoSolution then 0
    else if f.val.n > IntMath.MaxFactorial || f.val.n < 3 then 1
    else 2 + IntMath.MaxFactorial - f.val.n
  }

  /** One turn of a factorial loop: Unary's factorial of an integer f >= 3
      is NoSolution or a larger integer over the same digits. */
  lemma FactStep(f: Solution, next: Solution)
    requires f != NoSolution && f.val.d == 1 && f.val.n >= 3
    requires PerformUnary(Fact, f.val).Err? ==> next == NoSolution
    requires PerformUnary(Fact, f.val).Ok? ==> next == Solution(PerformUnary(Fact, f.val).value, f.start, f.end)
    ensures FactRank(next) < FactRank(f)
    ensures next != NoSolution ==>
      next.start == f.start && next.end == f.end && next.val.d == 1 && next.val.n >= 3 && Canonical(next.val)
  {
    IntegerCanonical(f.val.n);
    FactClimbs(f.val);
    if next != NoSolution {
      IntegerCanonical(next.val.n);
    }
  }

  /** The solution Go's Unary returns, leaving its formulas aside. */
  function UnaryResult(s: Solution, op: Op): Solution
    requires IsUnary(op)
  {
    if Zero(s.val) || (One(s.val) && op != Minus) then s
    else if PerformUnary(op, s.val).Err? then NoSolution
    else Solution(PerformUnary(op, s.val).value, s.start, s.end)
  }

  /** f after k turns of Go's factorial loop `f = f.Unary(OpFact)`, which
      runs while f is not NoSolution. */
  function FactTurns(f: Solution, k: nat): Solution
    decreases k
  {
    if k == 0 || f == NoSolution then f else FactTurns(UnaryResult(f, Fact), k - 1)
  }

  /** Go's factorial loops as written (solution.go:143 and 149), started
      from a solution of value 2 (the digit 2, or sqrt(4)): the factorial
      of 2 is 2 over the same digits, so after any number of turns f is
      still that solution and the loop never ends. */
  lemma {:induction false} FactLoopAsWrittenNeverEnds(s: Solution, k: nat)
    requires s.val == Rat(2, 1)
    ensures UnaryResult(s, Fact) == s
    ensures FactTurns(UnaryResult(s, Fact), k) == s && s != NoSolution
  {
    IntegerCanonical(2);
    NotTrivial(s.val);
    PerformUnaryMeans(Fact, s.val);
    assert IntMath.Factorial(2) == 2 by {
      assert IntMath.Factorial(1) == 1 by { assert IntMath.Factorial(0) == 1; }
    }
    if k > 0 {
      FactLoopAsWrittenNeverEnds(s, k - 1);
    }
  }

  /** The corrected factorial loop stops once a factorial gives back its
      argument; from a solution of value 2 that happens on the first turn,
      and from an integer 3..20 the loop climbs. */
  lemma FactLoopCorrectedStops(s: Solution)
    requires Canonical(s.val) && s.val.n > 0
    ensures s.val == Rat(2, 1) ==> UnaryResult(s, Fact) == s
    ensures s.val.d == 1 && 3 <= s.val.n <= IntMath.MaxFactorial ==>
      UnaryResult(s, Fact) != s && UnaryResult(s, Fact) != NoSolution
      && UnaryResult(s, Fact).val.n > s.val.n
  {
    if s.val == Rat(2, 1) {
      FactLoopAsWrittenNeverEnds(s, 0);
    } else if s.val.d == 1 && 3 <= s.val.n {
      NotTrivial(s.val);
      FactClimbs(s.val);
    }
  }

  /** The measure of AllUnary's square-root loop. */
  function SqrtRank(sq: Solution): int
  {
    if sq == NoSolution then 0 else sq.val.n + sq.val.d
  }

  /** Every solution in l has a canonical value and uses digits [start, end). */
  predicate Spanning(l: seq<Solution>, start: int, end: int)
  {
    forall x :: x in l ==> x.start == start && x.end == end && Canonical(x.val)
  }

  lemma SpanningSubset(a: seq<Solution>, b: seq<Solution>, start: int, end: int)
    requires Spanning(a, start, end) && forall x :: x in b ==> x in a
    ensures Spanning(b, start, end)
  {
  }

  lemma SpanningAppend(a: seq<Solution>, b: seq<Solution>, start: int, end: int)
    requires Spanning(a, start, end) && Spanning(b, start, end)
    ensures Spanning(a + b, start, end)
  {
  }

  /** l holds the solution that op makes from s1 and s2, whenever they are
      adjacent and op is defined on their values. */
  predicate Joins(l: seq<Solution>, s1: Solution, op: Op, s2: Solution)
    requires IsBinary(op)
  {
    s1.end == s2.start && Apply2(op, s1.val, s2.val).Ok? ==>
      Solution(Apply2(op, s1.val, s2.val).value, s1.start, s2.end) in l
  }

  lemma JoinsAppend(a: seq<Solution>, b: seq<Solution>, s1: Solution, op: Op, s2: Solution)
    requires IsBinary(op) && Joins(a, s1, op, s2)
    ensures Joins(a + b, s1, op, s2)
  {
  }

  /** l holds every solution a binary operator makes from s1 and s2. */
  predicate JoinsAll(l: seq<Solution>, s1: Solution, s2: Solution)
  {
    forall op :: IsBinary(op) ==> Joins(l, s1, op, s2)
  }

  lemma JoinsAllPrepend(a: seq<Solution>, b: seq<Solution>, s1: Solution, s2: Solution)
    requires JoinsAll(b, s1, s2)
    ensures JoinsAll(a + b, s1, s2)
  {
  }

  lemma JoinsAllAppend(a: seq<Solution>, b: seq<Solution>, s1: Solution, s2: Solution)
    requires JoinsAll(a, s1, s2)
    ensures JoinsAll(a + b, s1, s2)
  {
    forall op | IsBinary(op)
      ensures Joins(a + b, s1, op, s2)
    {
      JoinsAppend(a, b, s1, op, s2);
    }
  }

  /** The value of a run of decimal digits, as a fraction. */
  function Number(digits: string): (v: Rat)
    requires AllDigits(digits)
    ensures Canonical(v) && v.d == 1 && v.n >= 0
  {
    IntegerCanonical(DigitsValue(digits));
    Rat(DigitsValue(digits), 1)
  }

  /** l holds, for every binary operator defined on them, the solution that
      joins the number digits[..i] with the number digits[i..]. */
  predicate SplitJoins(l: seq<Solution>, digits: string, start: int, i: int)
    requires AllDigits(digits) && 0 <= i <= |digits|
  {
    DigitsParts(digits, i);
    JoinsValues(l, Number(digits[..i]), Number(digits[i..]), start, start + |digits|)
  }

  /** l holds, for every binary operator defined on a and b, the solution
      over [start, end) with the value it gives. */
  predicate JoinsValues(l: seq<Solution>, a: Rat, b: Rat, start: int, end: int)
  {
    forall op :: IsBinary(op) ==> JoinsBy(l, op, a, b, start, end)
  }

  /** l holds the solution over [start, end) that op makes from a and b,
      when op is defined on them. */
  predicate JoinsBy(l: seq<Solution>, op: Op, a: Rat, b: Rat, start: int, end: int)
    requires IsBinary(op)
  {
    Apply2(op, a, b).Ok? ==> Solution(Apply2(op, a, b).value, start, end) in l
  }

  /** l joins the parts of digits at every split point before i. */
  predicate SplitsBefore(l: seq<Solution>, digits: string, start: int, i: int)
    requires AllDigits(digits) && i <= |digits|
  {
    forall k :: 1 <= k < i ==> SplitJoins(l, digits, start, k)
  }

  lemma SplitsBeforeAppend(a: seq<Solution>, b: seq<Solution>, digits: string, start: int, i: int)
    requires AllDigits(digits) && i <= |digits|
    requires SplitsBefore(a, digits, start, i)
    ensures SplitsBefore(a + b, digits, start, i)
  {
    forall k | 1 <= k < i
      ensures SplitJoins(a + b, digits, start, k)
    {
      SplitJoinsAppend(a, b, digits, start, k);
    }
  }

  lemma SplitsBeforeSubset(a: seq<Solution>, b: seq<Solution>, digits: string, start: int, i: int)
    requires AllDigits(digits) && i <= |digits|
    requires SplitsBefore(a, digits, start, i) && forall x :: x in a ==> x in b
    ensures SplitsBefore(b, digits, start, i)
  {
    forall k | 1 <= k < i
      ensures SplitJoins(b, digits, start, k)
    {
      SplitJoinsSubset(a, b, digits, start, k);
    }
  }

  /** Joining at split point i extends the split invariant past i. */
  lemma SplitsBeforeNext(l: seq<Solution>, digits: string, start: int, i: int)
    requires AllDigits(digits) && 1 <= i < |digits|
    requires SplitsBefore(l, digits, start, i) && SplitJoins(l, digits, start, i)
    ensures SplitsBefore(l, digits, start, i + 1)
  {
    forall k | 1 <= k < i + 1
      ensures SplitJoins(l, digits, start, k)
    {
      if k < i {
        assert SplitJoins(l, digits, start, k);
      }
    }
  }

  /** Both parts of a run of digits are runs of digits. */
  lemma DigitsParts(digits: string, i: int)
    requires AllDigits(digits) && 0 <= i <= |digits|
    ensures AllDigits(digits[..i]) && AllDigits(digits[i..])
  {
    assert forall j :: 0 <= j < i ==> digits[..i][j] == digits[j];
    assert forall j :: 0 <= j < |digits| - i ==> digits[i..][j] == digits[i + j];
  }

  /** SplitJoins at i is JoinsValues for the numbers digits[..i] and
      digits[i..]. */
  lemma RowJoins(row: seq<Solution>, digits: string, start: int, i: int)
    requires AllDigits(digits) && 0 <= i <= |digits|
    requires JoinsValues(row, Number(digits[..i]), Number(digits[i..]), start, start + |digits|)
    ensures SplitJoins(row, digits, start, i)
  {
  }

  lemma JoinsValuesEnd(l: seq<Solution>, a: Rat, b: Rat, start: int, end: int, end2: int)
    requires end == end2 && JoinsValues(l, a, b, start, end)
    ensures JoinsValues(l, a, b, start, end2)
  {
  }

  lemma SplitJoinsAppend(a: seq<Solution>, b: seq<Solution>, digits: string, start: int, i: int)
    requires AllDigits(digits) && 0 <= i <= |digits|
    requires SplitJoins(a, digits, start, i) || SplitJoins(b, digits, start, i)
    ensures SplitJoins(a + b, digits, start, i)
  {
  }

  lemma SplitJoinsSubset(a: seq<Solution>, b: seq<Solution>, digits: string, start: int, i: int)
    requires AllDigits(digits) && 0 <= i <= |digits|
    requires SplitJoins(a, digits, start, i) && forall x :: x in a ==> x in b
    ensures SplitJoins(b, digits, start, i)
  {
  }

  /** The binary operator with Go code c, as AllBinary counts from OpAdd to
      OpPow. */
  function BinaryOp(c: int): (op: Op)
    requires Code(Add) <= c <= Code(Pow)
    ensures IsBinary(op) && Code(op) == c
  {
    if c == 1 then Add else if c == 2 then Sub else if c == 3 then Mul else if c == 4 then Div else Pow
  }

  /** No solution occurs twice. */
  predicate Distinct(l: seq<Solution>)
  {
    forall i, j :: 0 <= i < j < |l| ==> l[i] != l[j]
  }

  /** Go's uniq: each solution of l once. Go reads them back from a map,
      in no particular order; here the order is whatever `:|` picks. */
  method Uniq(l: seq<Solution>) returns (r: seq<Solution>)
    ensures forall x :: x in r <==> x in l
    ensures Distinct(r)
  {
    var m: set<Solution> := {};
    for i := 0 to |l|
      invariant m == set j | 0 <= j < i :: l[j]
    {
      m := m + {l[i]};
    }
    r := [];
    var rest := m;
    while rest != {}
      invariant rest <= m
      invariant forall x :: x in r <==> x in m - rest
      invariant Distinct(r)
      decreases |rest|
    {
      var x :| x in rest;
      assert x !in r;
      r := r + [x];
      rest := rest - {x};
    }
  }

  /** The negation of s over the same digits. */
  function Negated(s: Solution): Solution
  {
    Solution(Rat(-s.val.n, s.val.d), s.start, s.end)
  }

  /** Some formula of l is not rooted at a minus, so Unary can negate it. */
  predicate Negatable(l: seq<Node>)
  {
    exists n :: n in l && n.op != Minus
  }

  /** The digit spans whose keys AllBinary may give formulas: those of s1,
      of s2, and of the two joined. */
  function JoinSpans(s1: Solution, s2: Solution): set<(int, int)>
  {
    {(s1.start, s1.end), (s2.start, s2.end), (s1.start, s2.end)}
  }

  function Min(a: int, b: int): int
  {
    if a <= b then a else b
  }

  function Max(a: int, b: int): int
  {
    if a <= b then b else a
  }

  /** A key of a registry stays a key as the registry grows. */
  lemma KeepsKey(a: map<Solution, seq<Node>>, b: map<Solution, seq<Node>>, k: Solution)
    requires Grows(a, b)
    ensures k in a ==> k in b
  {
    if k in a {
      assert Lookup(a, k) <= Lookup(b, k);
    }
  }

  // ---------------------------------------------------------------------
  // The registry

  class Registry {
    /** Go's solutions: the formulas found so far for each solution. */
    var solutions: map<Solution, seq<Node>>
    /** Go's maxDepth: 0 keeps the first formula of each solution only;
        otherwise formulas deeper than this are dropped once a solution has
        one. */
    var maxDepth: int

    predicate Valid()
      reads this
    {
      AllStored(solutions, maxDepth)
    }

    /** Go's init: an empty registry. */
    constructor(maxDepth: int)
      ensures solutions == map[] && this.maxDepth == maxDepth
      ensures Valid()
    {
      solutions := map[];
      this.maxDepth := maxDepth;
    }

    /** Go's Add: adds formula v for s (the leaf of s's value when v is
        None), simplified, unless maxDepth is 0 and s already has one, or
        it is too deep, or an Equal formula is already stored for s. The
        ghost result is the candidate formula compared with the stored
        ones (None when Add returns before building it). */
    method Add(s: Solution, v: Option<Node>) returns (ghost w: Node)
      requires Valid()
      requires v.None? ==> Canonical(s.val)
      requires v.Some? ==> WellFormed(v.value) && LeavesCanonical(v.value) && Eval(v.value) == Ok(s.val)
      modifies this
      ensures Valid() && maxDepth == old(maxDepth) && s in solutions
      ensures Extends(old(solutions), solutions, s)
      ensures WellFormed(w) && Eval(w) == Ok(s.val)
      ensures v.None? ==> w == Leaf(s.val)
      ensures v.Some? ==> AtMost(w, v.value) && (Stable(v.value) ==> w == v.value)
      ensures !old(maxDepth == 0 && s in solutions) ==> Formula(w, s.val)
      ensures Admits(Lookup(old(solutions), s), w, maxDepth) ==>
        solutions == old(solutions)[s := Lookup(old(solutions), s) + [w]]
      ensures !Admits(Lookup(old(solutions), s), w, maxDepth) ==> solutions == old(solutions)
    {
      var l := Lookup(solutions, s);
      KeyHasFormulas(s);
      ExtendsRefl(solutions, s);
      if maxDepth == 0 && l != [] {
        if v.None? {
          LeafFormula(s.val);
        }
        w := if v.Some? then v.value else Leaf(s.val);
        return;
      }
      var x: Node;
      if v.None? {
        x := Leaf(s.val);
        LeafFormula(s.val);
      } else {
        x := Simplify(v.value);
        assert Formula(x, s.val);
      }
      w := x;
      if maxDepth != 0 && Depth(x) > maxDepth && l != [] {
        assert !Admits(l, x, maxDepth);
        return;
      }
      var found := HasEqual(x, l);
      if found {
        assert !Admits(l, x, maxDepth);
        return;
      }
      assert Admits(l, x, maxDepth);
      StoredAppend(s.val, l, x, maxDepth);
      StoredUpdate(solutions, s, l + [x], maxDepth);
      ExtendsByAppend(solutions, s, x);
      solutions := solutions[s := l + [x]];
    }

    /** Go's AllUnary: s with every value reachable from it by unary
        operators as Go tries them: its negation; then, from the
        non-negative one of the two, repeated factorials each with its
        negation, and repeated square roots each followed by repeated
        factorials. Every value tried is registered through Unary, the
        negation of 1 and -1 included (Go returns that one without
        registering it: see AllUnaryAsWritten). Only keys over the digits
        of s gain formulas. */
    method AllUnary(s: Solution) returns (r: seq<Solution>)
      requires Valid() && Canonical(s.val)
      modifies this
      ensures Valid() && maxDepth == old(maxDepth) && GrowsAt(old(solutions), solutions, {(s.start, s.end)})
      ensures s in r && Distinct(r)
      ensures Spanning(r, s.start, s.end)
      ensures Zero(s.val) ==> r == [s] && solutions == old(solutions)
      ensures One(s.val) || MinusOne(s.val) ==>
        r == [s, Negated(s)] && Extends(old(solutions), solutions, Negated(s))
      ensures (One(s.val) || MinusOne(s.val)) && Negatable(Lookup(old(solutions), s)) ==>
        Negated(s) in solutions
      ensures !Zero(s.val) ==> Negated(s) in r
      ensures s.val.d == 1 && 3 <= IntMath.Abs(s.val.n) <= IntMath.MaxFactorial ==>
        Solution(Rat(IntMath.Factorial(IntMath.Abs(s.val.n)), 1), s.start, s.end) in r
    {
      MinusStep(s.val);
      OneMeans(s.val);
      if Zero(s.val) {
        assert Spanning([s], s.start, s.end);
        return [s];
      }
      if One(s.val) || MinusOne(s.val) {
        r := NegateUnit(s);
        return;
      }
      r := AllUnaryGeneral(s);
    }

    /** AllUnary of 1 or -1: s and its negation, registered through Unary
        like every other value, so that the negation gains a formula
        whenever s has one not rooted at a minus. */
    method NegateUnit(s: Solution) returns (r: seq<Solution>)
      requires Valid() && Canonical(s.val) && (One(s.val) || MinusOne(s.val))
      modifies this
      ensures Valid() && maxDepth == old(maxDepth) && Extends(old(solutions), solutions, Negated(s))
      ensures GrowsAt(old(solutions), solutions, {(s.start, s.end)})
      ensures r == [s, Negated(s)] && Distinct(r) && Spanning(r, s.start, s.end)
      ensures Negatable(Lookup(old(solutions), s)) ==> Negated(s) in solutions
    {
      MinusStep(s.val);
      OneMeans(s.val);
      var s1, offered, ws := Unary(s, Minus);
      assert s1 == Negated(s);
      if Negatable(Lookup(old(solutions), s)) {
        var n :| n in Lookup(old(solutions), s) && n.op != Minus;
        assert Unary1(Minus, n) in offered;
        AddedToNonEmpty(Lookup(old(solutions), s1), ws, maxDepth);
      }
      assert Spanning([s, s1], s.start, s.end);
      r := [s, s1];
    }

    /** Go's AllUnary as written: for 1 and -1 it returns the negation
        without registering a formula for it. */
    method AllUnaryAsWritten(s: Solution) returns (r: seq<Solution>)
      requires Valid() && Canonical(s.val)
      modifies this
      ensures Valid() && maxDepth == old(maxDepth) && GrowsAt(old(solutions), solutions, {(s.start, s.end)})
      ensures s in r && Distinct(r) && Spanning(r, s.start, s.end)
      ensures Zero(s.val) ==> r == [s]
      ensures One(s.val) || MinusOne(s.val) ==> r == [s, Negated(s)]
      ensures Zero(s.val) || One(s.val) || MinusOne(s.val) ==> solutions == old(solutions)
      ensures !Zero(s.val) ==> Negated(s) in r
    {
      MinusStep(s.val);
      OneMeans(s.val);
      if Zero(s.val) {
        assert Spanning([s], s.start, s.end);
        return [s];
      }
      if One(s.val) || MinusOne(s.val) {
        var minusS := PerformUnary(Minus, s.val).value;
        assert Spanning([s, Solution(minusS, s.start, s.end)], s.start, s.end);
        return [s, Solution(minusS, s.start, s.end)];
      }
      r := AllUnaryGeneral(s);
    }

    /** AllUnary of a value other than 0, 1 and -1: from Go's first call of
        Unary on. */
    method AllUnaryGeneral(s: Solution) returns (r: seq<Solution>)
      requires Valid() && Canonical(s.val) && !Zero(s.val) && !One(s.val) && !MinusOne(s.val)
      modifies this
      ensures Valid() && maxDepth == old(maxDepth) && GrowsAt(old(solutions), solutions, {(s.start, s.end)})
      ensures s in r && Distinct(r)
      ensures Spanning(r, s.start, s.end)
      ensures Negated(s) in r
      ensures s.val.d == 1 && 3 <= IntMath.Abs(s.val.n) <= IntMath.MaxFactorial ==>
        Solution(Rat(IntMath.Factorial(IntMath.Abs(s.val.n)), 1), s.start, s.end) in r
    {
      MinusStep(s.val);
      OneMeans(s.val);
      var result := [s];
      var s1, _, _ := Unary(s, Minus);
      ghost var mid := solutions;
      assert s1 == Negated(s);
      assert Spanning([s, s1], s.start, s.end);
      if s1 != NoSolution {
        result := result + [s1];
      }
      var t := s;
      NormalizeOfCanonical(s.val);
      if Negative(s.val) {
        if s1 == NoSolution {
          assert false;
          return result;
        } else {
          t := s1;
        }
      }
      assert t.val == Rat(IntMath.Abs(s.val.n), s.val.d);
      assert t.start == s.start && t.end == s.end;
      assert s in result && s1 in result;
      r := Reachable(result, t);
      GrowsAtTrans(old(solutions), mid, solutions, {(s.start, s.end)});
      assert s in r && s1 in r;
    }

    /** The end of AllUnary: result, then the factorial loop and the
        square-root loop from the non-negative value t, without repeats. */
    method Reachable(result: seq<Solution>, t: Solution) returns (r: seq<Solution>)
      requires Valid() && Canonical(t.val) && t.val.n > 0 && t.val != Rat(1, 1)
      requires Spanning(result, t.start, t.end)
      modifies this
      ensures Valid() && maxDepth == old(maxDepth) && GrowsAt(old(solutions), solutions, {(t.start, t.end)})
      ensures Spanning(r, t.start, t.end) && Distinct(r)
      ensures forall x :: x in result ==> x in r
      ensures t.val.d == 1 && 3 <= t.val.n <= IntMath.MaxFactorial ==>
        Solution(Rat(IntMath.Factorial(t.val.n), 1), t.start, t.end) in r
    {
      var fs := Factorials(t, true);
      ghost var mid := solutions;
      var sqs := SquareRoots(t);
      GrowsAtTrans(old(solutions), mid, solutions, {(t.start, t.end)});
      SpanningAppend(result, fs, t.start, t.end);
      SpanningAppend(result + fs, sqs, t.start, t.end);
      var all := result + fs + sqs;
      assert forall x :: x in result ==> x in all;
      assert t.val.d == 1 && 3 <= t.val.n <= IntMath.MaxFactorial ==>
        Solution(Rat(IntMath.Factorial(t.val.n), 1), t.start, t.end) in all;
      r := Uniq(all);
    }

    /** The factorial loops of AllUnary: the repeated factorials of t, each
        followed by its negation when negate is set. Go runs the loop until
        a factorial is undefined, which never happens from 2, whose
        factorial is 2 (FactLoopAsWrittenNeverEnds); here the loop also
        stops when the factorial gives back its argument. */
    method Factorials(t: Solution, negate: bool) returns (fs: seq<Solution>)
      requires Valid() && Canonical(t.val) && t.val.n > 0 && t.val != Rat(1, 1)
      modifies this
      ensures Valid() && maxDepth == old(maxDepth) && GrowsAt(old(solutions), solutions, {(t.start, t.end)})
      ensures Spanning(fs, t.start, t.end)
      ensures t.val == Rat(2, 1) ==> fs == []
      ensures t.val.d == 1 && 3 <= t.val.n <= IntMath.MaxFactorial ==>
        Solution(Rat(IntMath.Factorial(t.val.n), 1), t.start, t.end) in fs
    {
      fs := [];
      NotTrivial(t.val);
      FactClimbs(t.val);
      FactLoopCorrectedStops(t);
      var f, _, _ := Unary(t, Fact);
      assert f == UnaryResult(t, Fact);
      if f != NoSolution {
        IntegerCanonical(f.val.n);
      }
      ghost var first := f;
      var prev := t;
      while f != NoSolution && f != prev
        invariant Valid() && maxDepth == old(maxDepth) && GrowsAt(old(solutions), solutions, {(t.start, t.end)})
        invariant Spanning(fs, t.start, t.end)
        invariant f != NoSolution ==>
          f.start == t.start && f.end == t.end && f.val.d == 1 && Canonical(f.val)
        invariant f != NoSolution && f != prev ==> f.val.n >= 3
        invariant prev == t ==> f == first && fs == []
        invariant prev == t || first in fs
        invariant t.val == Rat(2, 1) ==> f == t && prev == t
        decreases if f == NoSolution || f == prev then 0 else FactRank(f)
      {
        ghost var before := solutions;
        assert Spanning([f], t.start, t.end);
        SpanningAppend(fs, [f], t.start, t.end);
        fs := fs + [f];
        IntegerCanonical(f.val.n);
        NotTrivial(f.val);
        if negate {
          MinusStep(f.val);
          var m, _, _ := Unary(f, Minus);
          assert Spanning([m], t.start, t.end);
          SpanningAppend(fs, [m], t.start, t.end);
          fs := fs + [m];
        }
        ghost var mid := solutions;
        var next, _, _ := Unary(f, Fact);
        FactStep(f, next);
        prev := f;
        f := next;
        GrowsAtTrans(before, mid, solutions, {(t.start, t.end)});
        GrowsAtTrans(old(solutions), before, solutions, {(t.start, t.end)});
      }
    }

    /** The square-root loop of AllUnary: the repeated square roots of t
        until one is undefined, each followed by its repeated factorials. */
    method SquareRoots(t: Solution) returns (sqs: seq<Solution>)
      requires Valid() && Canonical(t.val) && t.val.n > 0 && t.val != Rat(1, 1)
      modifies this
      ensures Valid() && maxDepth == old(maxDepth) && GrowsAt(old(solutions), solutions, {(t.start, t.end)})
      ensures Spanning(sqs, t.start, t.end)
    {
      sqs := [];
      NotTrivial(t.val);
      var sq, _, _ := Unary(t, Sqrt);
      if sq != NoSolution {
        SqrtShrinks(t.val);
      }
      while sq != NoSolution
        invariant Valid() && maxDepth == old(maxDepth) && GrowsAt(old(solutions), solutions, {(t.start, t.end)})
        invariant Spanning(sqs, t.start, t.end)
        invariant sq != NoSolution ==>
          sq.start == t.start && sq.end == t.end && Canonical(sq.val) && sq.val.n > 0 && sq.val != Rat(1, 1)
        decreases SqrtRank(sq)
      {
        ghost var before := solutions;
        sqs := sqs + [sq];
        var fs := Factorials(sq, false);
        SpanningAppend(sqs, fs, t.start, t.end);
        sqs := sqs + fs;
        NotTrivial(sq.val);
        ghost var mid := solutions;
        var next, _, _ := Unary(sq, Sqrt);
        if next != NoSolution {
          SqrtShrinks(sq.val);
        }
        sq := next;
        GrowsAtTrans(before, mid, solutions, {(t.start, t.end)});
        GrowsAtTrans(old(solutions), before, solutions, {(t.start, t.end)});
      }
    }

    /** Go's AllBinary: every solution that Binary makes from a binary
        operator, a solution of s1.AllUnary() and one of s2.AllUnary(),
        without repeats. Like Go, it recomputes s1.AllUnary() for every
        operator and s2.AllUnary() for every solution of the first. Only
        keys over the digits of s1, of s2, or of both gain formulas. */
    method AllBinary(s1: Solution, s2: Solution) returns (r: seq<Solution>)
      requires Valid() && Canonical(s1.val) && Canonical(s2.val)
      modifies this
      ensures Valid() && maxDepth == old(maxDepth) && GrowsAt(old(solutions), solutions, JoinSpans(s1, s2))
      ensures Spanning(r, s1.start, s2.end) && Distinct(r)
      ensures r != [] ==> s1.end == s2.start
      ensures forall op :: IsBinary(op) && s1.end == s2.start && Apply2(op, s1.val, s2.val).Ok? ==>
        Solution(Apply2(op, s1.val, s2.val).value, s1.start, s2.end) in r
    {
      var result := [];
      var c := Code(Op.Add);
      while c <= Code(Op.Pow)
        invariant Code(Op.Add) <= c <= Code(Op.Pow) + 1
        invariant Valid() && maxDepth == old(maxDepth) && GrowsAt(old(solutions), solutions, JoinSpans(s1, s2))
        invariant Spanning(result, s1.start, s2.end)
        invariant result != [] ==> s1.end == s2.start
        invariant forall op :: IsBinary(op) && Code(op) < c && s1.end == s2.start && Apply2(op, s1.val, s2.val).Ok? ==>
          Solution(Apply2(op, s1.val, s2.val).value, s1.start, s2.end) in result
      {
        var op := BinaryOp(c);
        ghost var before := solutions;
        var found := Combine(s1, op, s2);
        GrowsAtTrans(old(solutions), before, solutions, JoinSpans(s1, s2));
        SpanningAppend(result, found, s1.start, s2.end);
        result := result + found;
        c := c + 1;
      }
      r := Uniq(result);
      SpanningSubset(result, r, s1.start, s2.end);
      if r != [] {
        assert r[0] in result;
      }
      forall op | IsBinary(op) && s1.end == s2.start && Apply2(op, s1.val, s2.val).Ok?
        ensures Solution(Apply2(op, s1.val, s2.val).value, s1.start, s2.end) in r
      {
        assert Solution(Apply2(op, s1.val, s2.val).value, s1.start, s2.end) in result;
      }
    }

    /** The two inner loops of AllBinary for one operator. */
    method Combine(s1: Solution, op: Op, s2: Solution) returns (found: seq<Solution>)
      requires Valid() && Canonical(s1.val) && Canonical(s2.val) && IsBinary(op)
      modifies this
      ensures Valid() && maxDepth == old(maxDepth) && GrowsAt(old(solutions), solutions, JoinSpans(s1, s2))
      ensures Spanning(found, s1.start, s2.end)
      ensures found != [] ==> s1.end == s2.start
      ensures Joins(found, s1, op, s2)
    {
      var us1 := AllUnary(s1);
      GrowsAtWiden(old(solutions), solutions, {(s1.start, s1.end)}, JoinSpans(s1, s2));
      ghost var mid := solutions;
      found := CombineEach(us1, s1, op, s2);
      GrowsAtWiden(mid, solutions, {(s2.start, s2.end), (s1.start, s2.end)}, JoinSpans(s1, s2));
      GrowsAtTrans(old(solutions), mid, solutions, JoinSpans(s1, s2));
    }

    /** The middle loop of AllBinary: every solution of us1, which holds s1
        and spans what s1 spans, joined by op with the solutions of s2. */
    method CombineEach(us1: seq<Solution>, s1: Solution, op: Op, s2: Solution) returns (found: seq<Solution>)
      requires Valid() && Canonical(s2.val) && IsBinary(op)
      requires s1 in us1 && Spanning(us1, s1.start, s1.end)
      modifies this
      ensures Valid() && maxDepth == old(maxDepth)
      ensures GrowsAt(old(solutions), solutions, {(s2.start, s2.end), (s1.start, s2.end)})
      ensures Spanning(found, s1.start, s2.end)
      ensures found != [] ==> s1.end == s2.start
      ensures Joins(found, s1, op, s2)
    {
      found := [];
      ghost var i0 :| 0 <= i0 < |us1| && us1[i0] == s1;
      var i := 0;
      while i < |us1|
        invariant 0 <= i <= |us1|
        invariant Valid() && maxDepth == old(maxDepth)
        invariant GrowsAt(old(solutions), solutions, {(s2.start, s2.end), (s1.start, s2.end)})
        invariant Spanning(found, s1.start, s2.end)
        invariant found != [] ==> s1.end == s2.start
        invariant i > i0 ==> Joins(found, s1, op, s2)
      {
        assert us1[i] in us1;
        ghost var before := solutions;
        var row := CombineWith(us1[i], op, s2);
        GrowsAtTrans(old(solutions), before, solutions, {(s2.start, s2.end), (s1.start, s2.end)});
        SpanningAppend(found, row, s1.start, s2.end);
        if i > i0 {
          JoinsAppend(found, row, s1, op, s2);
        }
        found := found + row;
        i := i + 1;
      }
    }

    /** The innermost loop of AllBinary: s3 joined by op with every solution
        of s2.AllUnary(). */
    method CombineWith(s3: Solution, op: Op, s2: Solution) returns (row: seq<Solution>)
      requires Valid() && Canonical(s3.val) && Canonical(s2.val) && IsBinary(op)
      modifies this
      ensures Valid() && maxDepth == old(maxDepth)
      ensures GrowsAt(old(solutions), solutions, {(s2.start, s2.end), (s3.start, s2.end)})
      ensures Spanning(row, s3.start, s2.end)
      ensures row != [] ==> s3.end == s2.start
      ensures Joins(row, s3, op, s2)
    {
      var us2 := AllUnary(s2);
      GrowsAtWiden(old(solutions), solutions, {(s2.start, s2.end)}, {(s2.start, s2.end), (s3.start, s2.end)});
      ghost var mid := solutions;
      row := JoinEach(s3, op, us2, s2);
      GrowsAtWiden(mid, solutions, {(s3.start, s2.end)}, {(s2.start, s2.end), (s3.start, s2.end)});
      GrowsAtTrans(old(solutions), mid, solutions, {(s2.start, s2.end), (s3.start, s2.end)});
    }

    /** The loop of CombineWith over us2, which holds s2 and spans what s2
        spans. */
    method JoinEach(s3: Solution, op: Op, us2: seq<Solution>, s2: Solution) returns (row: seq<Solution>)
      requires Valid() && Canonical(s3.val) && IsBinary(op)
      requires s2 in us2 && Spanning(us2, s2.start, s2.end)
      modifies this
      ensures Valid() && maxDepth == old(maxDepth) && GrowsAt(old(solutions), solutions, {(s3.start, s2.end)})
      ensures Spanning(row, s3.start, s2.end)
      ensures row != [] ==> s3.end == s2.start
      ensures Joins(row, s3, op, s2)
    {
      row := [];
      ghost var j0 :| 0 <= j0 < |us2| && us2[j0] == s2;
      var j := 0;
      while j < |us2|
        invariant 0 <= j <= |us2|
        invariant Valid() && maxDepth == old(maxDepth) && GrowsAt(old(solutions), solutions, {(s3.start, s2.end)})
        invariant Spanning(row, s3.start, s2.end)
        invariant row != [] ==> s3.end == s2.start
        invariant j > j0 ==> Joins(row, s3, op, s2)
      {
        var s4 := us2[j];
        assert s4 in us2;
        ghost var before := solutions;
        var s5, _, _ := Binary(s3, op, s4);
        GrowsAtTrans(old(solutions), before, solutions, {(s3.start, s2.end)});
        if s5 != NoSolution {
          Apply2Canonical(op, s3.val, s4.val);
          assert Spanning([s5], s3.start, s2.end);
          SpanningAppend(row, [s5], s3.start, s2.end);
          row := row + [s5];
        } else if j == j0 && s3.end == s2.start && Apply2(op, s3.val, s2.val).Ok? {
          Apply2Canonical(op, s3.val, s2.val);
          assert false;
        }
        j := j + 1;
      }
    }

    /** Go's atos: the solution for the number a over the span
        [start, start + |a|), seeded with its leaf formula. Like Go, it
        ignores end; a that does not parse is a fatal error in Go. */
    method Atos(a: string, start: int, end: int) returns (s: Solution)
      requires Valid() && Atoi(a).Some?
      modifies this
      ensures Valid() && maxDepth == old(maxDepth) && Extends(old(solutions), solutions, s)
      ensures s == Solution(Rat(Atoi(a).value, 1), start, start + |a|)
      ensures Canonical(s.val) && s in solutions
      ensures s !in old(solutions) ==> solutions[s] == [Leaf(s.val)]
    {
      var n := Atoi(a).value;
      IntegerCanonical(n);
      s := Solution(Rat(n, 1), start, start + |a|);
      ghost var w := Add(s, None);
    }

    /** Go's FindAllSolutions: every solution over digits, whose first digit
        is at position start: the unary forms of the whole number, and for
        every split point every binary join of a solution of the left part
        with a solution of the right part, without repeats. The whole
        number is registered, and only keys over digits inside
        [start, start + |digits|) gain formulas. */
    method FindAllSolutions(digits: string, start: int) returns (r: seq<Solution>)
      requires Valid() && AllDigits(digits)
      modifies this
      decreases |digits|, 2
      ensures Valid() && maxDepth == old(maxDepth) && GrowsWithin(old(solutions), solutions, start, start + |digits|)
      ensures Spanning(r, start, start + |digits|) && Distinct(r)
      ensures digits == [] ==> r == []
      ensures digits != [] ==> Solution(Number(digits), start, start + |digits|) in r
      ensures digits != [] ==> Solution(Number(digits), start, start + |digits|) in solutions
      ensures forall i :: 1 <= i < |digits| ==> SplitJoins(r, digits, start, i)
    {
      if |digits| == 0 {
        return [];
      }
      var a := Atos(digits, start, start + |digits|);
      assert a.val == Number(digits);
      ExtendsGrowsAt(old(solutions), solutions, a);
      GrowsAtWithin(old(solutions), solutions, {(a.start, a.end)}, start, start + |digits|);
      ghost var mid := solutions;
      var unary := AllUnary(a);
      GrowsAtWithin(mid, solutions, {(a.start, a.end)}, start, start + |digits|);
      GrowsWithinTrans(old(solutions), mid, solutions, start, start + |digits|);
      KeepsKey(mid, solutions, a);
      mid := solutions;
      var found := AllSplits(digits, start);
      GrowsWithinTrans(old(solutions), mid, solutions, start, start + |digits|);
      KeepsKey(mid, solutions, a);
      SpanningAppend(unary, found, start, start + |digits|);
      var all := unary + found;
      r := Uniq(all);
      SpanningSubset(all, r, start, start + |digits|);
      assert a in all;
      SplitsBeforeSubset(found, all, digits, start, |digits|);
      SplitsBeforeSubset(all, r, digits, start, |digits|);
    }

    /** The loop of FindAllSolutions over the split points. */
    method AllSplits(digits: string, start: int) returns (all: seq<Solution>)
      requires Valid() && AllDigits(digits)
      modifies this
      decreases |digits|, 1
      ensures Valid() && maxDepth == old(maxDepth) && GrowsWithin(old(solutions), solutions, start, start + |digits|)
      ensures Spanning(all, start, start + |digits|)
      ensures SplitsBefore(all, digits, start, |digits|)
    {
      all := [];
      var i := 1;
      while i < |digits|
        invariant 1 <= i
        invariant i <= |digits| || |digits| == 0
        invariant Valid() && maxDepth == old(maxDepth) && GrowsWithin(old(solutions), solutions, start, start + |digits|)
        invariant Spanning(all, start, start + |digits|)
        invariant |digits| > 0 ==> SplitsBefore(all, digits, start, i)
      {
        ghost var before := solutions;
        var found := Split(digits, start, i);
        GrowsWithinTrans(old(solutions), before, solutions, start, start + |digits|);
        SpanningAppend(all, found, start, start + |digits|);
        SplitsBeforeAppend(all, found, digits, start, i);
        SplitJoinsAppend(all, found, digits, start, i);
        SplitsBeforeNext(all + found, digits, start, i);
        all := all + found;
        i := i + 1;
      }
    }

    /** The two inner loops of FindAllSolutions for the split point i. Like
        Go, it recomputes the solutions of digits[i..] for every solution of
        digits[..i]. */
    method Split(digits: string, start: int, i: int) returns (found: seq<Solution>)
      requires Valid() && AllDigits(digits) && 1 <= i < |digits|
      modifies this
      decreases |digits|, 0
      ensures Valid() && maxDepth == old(maxDepth) && GrowsWithin(old(solutions), solutions, start, start + |digits|)
      ensures Spanning(found, start, start + |digits|)
      ensures SplitJoins(found, digits, start, i)
    {
      found := [];
      var lefts := FindAllSolutions(digits[..i], start);
      GrowsWithinWiden(old(solutions), solutions, start, start + i, start, start + |digits|);
      ghost var s1 := Solution(Number(digits[..i]), start, start + i);
      ghost var k0 :| 0 <= k0 < |lefts| && lefts[k0] == s1;
      var k := 0;
      while k < |lefts|
        invariant 0 <= k <= |lefts|
        invariant Valid() && maxDepth == old(maxDepth) && GrowsWithin(old(solutions), solutions, start, start + |digits|)
        invariant Spanning(found, start, start + |digits|)
        invariant k > k0 ==> SplitJoins(found, digits, start, i)
      {
        assert lefts[k] in lefts;
        ghost var before := solutions;
        var row := SplitRow(lefts[k], digits[i..], start + i);
        assert start + i + |digits[i..]| == start + |digits|;
        GrowsWithinTrans(old(solutions), before, solutions, start, start + |digits|);
        SpanningAppend(found, row, start, start + |digits|);
        if k == k0 {
          JoinsValuesEnd(row, s1.val, Number(digits[i..]), start, start + i + |digits[i..]|, start + |digits|);
          RowJoins(row, digits, start, i);
        }
        if k >= k0 {
          SplitJoinsAppend(found, row, digits, start, i);
        }
        found := found + row;
        k := k + 1;
      }
    }

    /** The innermost loop of FindAllSolutions: s1 joined with every
        solution of rest, the digits that follow it from position next. */
    method SplitRow(s1: Solution, rest: string, next: int) returns (row: seq<Solution>)
      requires Valid() && AllDigits(rest) && |rest| >= 1 && Canonical(s1.val)
      modifies this
      decreases |rest|, 3
      ensures Valid() && maxDepth == old(maxDepth)
      ensures GrowsWithin(old(solutions), solutions, Min(s1.start, next), Max(s1.end, next + |rest|))
      ensures Spanning(row, s1.start, next + |rest|)
      ensures s1.end == next ==> JoinsValues(row, s1.val, Number(rest), s1.start, next + |rest|)
    {
      row := [];
      ghost var lo, hi := Min(s1.start, next), Max(s1.end, next + |rest|);
      var rights := FindAllSolutions(rest, next);
      GrowsWithinWiden(old(solutions), solutions, next, next + |rest|, lo, hi);
      ghost var s2 := Solution(Number(rest), next, next + |rest|);
      ghost var j0 :| 0 <= j0 < |rights| && rights[j0] == s2;
      var j := 0;
      while j < |rights|
        invariant 0 <= j <= |rights|
        invariant Valid() && maxDepth == old(maxDepth) && GrowsWithin(old(solutions), solutions, lo, hi)
        invariant Spanning(row, s1.start, next + |rest|)
        invariant j > j0 ==> JoinsAll(row, s1, s2)
      {
        var s3 := rights[j];
        assert s3 in rights;
        ghost var before := solutions;
        var joined := AllBinary(s1, s3);
        GrowsAtWithin(before, solutions, JoinSpans(s1, s3), lo, hi);
        GrowsWithinTrans(old(solutions), before, solutions, lo, hi);
        SpanningAppend(row, joined, s1.start, next + |rest|);
        if j == j0 {
          assert JoinsAll(joined, s1, s2);
          JoinsAllPrepend(row, joined, s1, s2);
        } else if j > j0 {
          JoinsAllAppend(row, joined, s1, s2);
        }
        row := row + joined;
        j := j + 1;
      }
      assert JoinsAll(row, s1, s2);
    }

    /** A key is in the registry exactly when it has formulas. */
    lemma KeyHasFormulas(s: Solution)
      requires Valid()
      ensures s in solutions <==> Lookup(solutions, s) != []
      ensures s in solutions ==> Stored(s.val, solutions[s], maxDepth)
    {
      if s in solutions {
        assert Stored(s.val, Entry(solutions, s), maxDepth);
      }
    }

    /** The formulas of s, as Add requires its candidates' operands. */
    lemma FormulasOf(s: Solution)
      requires Valid()
      ensures Candidates(Lookup(solutions, s), s.val)
    {
      KeyHasFormulas(s);
    }

    /** Go's loops that pass candidates to Add one by one. The ghost result
        holds each candidate as Add compared it: simplified, of the same
        value and no larger; the new formulas of key are those that were
        admitted, in order. */
    method AddAll(key: Solution, cands: seq<Node>) returns (ghost ws: seq<Node>)
      requires Valid() && Candidates(cands, key.val)
      modifies this
      ensures Valid() && maxDepth == old(maxDepth) && Extends(old(solutions), solutions, key)
      ensures AllWellFormed(ws) && Simplifications(ws, cands)
      ensures Lookup(solutions, key) == AddedTo(Lookup(old(solutions), key), ws, maxDepth)
      ensures cands != [] ==> key in solutions
    {
      ws := [];
      var i := 0;
      while i < |cands|
        invariant 0 <= i <= |cands|
        invariant Valid() && maxDepth == old(maxDepth) && Extends(old(solutions), solutions, key)
        invariant AllWellFormed(ws) && Simplifications(ws, cands[..i])
        invariant Lookup(solutions, key) == AddedTo(Lookup(old(solutions), key), ws, maxDepth)
        invariant i > 0 ==> key in solutions
      {
        var x := cands[i];
        assert x in cands;
        ghost var before := solutions;
        ghost var wi := Add(key, Some(x));
        ExtendsTrans(old(solutions), before, solutions, key);
        assert Simplified(wi, x);
        AddedToStep(Lookup(old(solutions), key), ws, wi, maxDepth);
        SimplificationsStep(ws, cands, i, wi);
        ws := ws + [wi];
        i := i + 1;
      }
      assert cands[..i] == cands;
    }

    /** Go's Unary: s itself for a zero value or for one under an operator
        other than minus; NoSolution when the operation is undefined;
        otherwise the new value over the same digits, after offering op over
        each formula of s to Add. The ghost result lists those candidates. */
    method Unary(s: Solution, op: Op) returns (s1: Solution, ghost offered: seq<Node>, ghost ws: seq<Node>)
      requires Valid() && IsUnary(op)
      modifies this
      ensures Valid() && maxDepth == old(maxDepth) && Extends(old(solutions), solutions, s1)
      ensures GrowsAt(old(solutions), solutions, {(s.start, s.end)})
      ensures Zero(s.val) || (One(s.val) && op != Minus) ==>
        s1 == s && solutions == old(solutions) && offered == []
      ensures !(Zero(s.val) || (One(s.val) && op != Minus)) && PerformUnary(op, s.val).Err? ==>
        s1 == NoSolution && solutions == old(solutions) && offered == []
      ensures !(Zero(s.val) || (One(s.val) && op != Minus)) && PerformUnary(op, s.val).Ok? ==>
        s1 == Solution(PerformUnary(op, s.val).value, s.start, s.end)
        && offered == Wrapped(op, Lookup(old(solutions), s))
      ensures AllWellFormed(ws) && Simplifications(ws, offered)
      ensures Lookup(solutions, s1) == AddedTo(Lookup(old(solutions), s1), ws, maxDepth)
    {
      if Zero(s.val) || (One(s.val) && op != Minus) {
        return s, [], [];
      }
      var v1 := PerformUnary(op, s.val);
      if v1.Err? {
        return NoSolution, [], [];
      }
      s1 := Solution(v1.value, s.start, s.end);
      FormulasOf(s);
      var cands := Wrapped(op, Lookup(solutions, s));
      WrappedCandidates(op, Lookup(solutions, s), s.val);
      offered := cands;
      ws := AddAll(s1, cands);
      ExtendsGrowsAt(old(solutions), solutions, s1);
    }

    /** Go's Binary: NoSolution unless s2 starts where s1 ends and the
        operation is defined; otherwise the value over the joined digits,
        after offering op over every pair of formulas of s1 and s2 to Add.
        The ghost result lists those candidates. */
    method Binary(s1: Solution, op: Op, s2: Solution) returns (s3: Solution, ghost offered: seq<Node>, ghost ws: seq<Node>)
      requires Valid() && IsBinary(op)
      modifies this
      ensures Valid() && maxDepth == old(maxDepth) && Extends(old(solutions), solutions, s3)
      ensures GrowsAt(old(solutions), solutions, {(s1.start, s2.end)})
      ensures s1.end != s2.start || Apply2(op, s1.val, s2.val).Err? ==>
        s3 == NoSolution && solutions == old(solutions) && offered == []
      ensures s1.end == s2.start && Apply2(op, s1.val, s2.val).Ok? ==>
        s3 == Solution(Apply2(op, s1.val, s2.val).value, s1.start, s2.end)
        && offered == Paired(op, Lookup(old(solutions), s1), Lookup(old(solutions), s2))
      ensures AllWellFormed(ws) && Simplifications(ws, offered)
      ensures Lookup(solutions, s3) == AddedTo(Lookup(old(solutions), s3), ws, maxDepth)
    {
      if s1.end != s2.start {
        return NoSolution, [], [];
      }
      var v := Apply2(op, s1.val, s2.val);
      if v.Err? {
        return NoSolution, [], [];
      }
      s3 := Solution(v.value, s1.start, s2.end);
      FormulasOf(s1);
      FormulasOf(s2);
      var cands := Paired(op, Lookup(solutions, s1), Lookup(solutions, s2));
      PairedCandidates(op, Lookup(solutions, s1), s1.val, Lookup(solutions, s2), s2.val);
      offered := cands;
      ws := AddAll(s3, cands);
      ExtendsGrowsAt(old(solutions), solutions, s3);
    }
  }
}

/** The registry on the single digit 1: Go's AllUnary returns -1 among the
    solutions of "1" but leaves it without a formula, so printing the
    formulas of -1 finds none; the corrected AllUnary gives it one. */
module UnitNegation {
  import opened Wrappers
  import opened Text
  import opened Rational
  import opened Nodes
  import opened Solutions

  method AsWrittenLeavesMinusOneBare() returns (r: seq<Solution>, formulas: seq<Node>)
    ensures Solution(Rat(-1, 1), 0, 1) in r && formulas == []
  {
    var reg := new Registry(1);
    assert Atoi("1") == Some(1);
    var one := reg.Atos("1", 0, 1);
    r := reg.AllUnaryAsWritten(one);
    formulas := Lookup(reg.solutions, Solution(Rat(-1, 1), 0, 1));
  }

  method CorrectedGivesMinusOneAFormula() returns (r: seq<Solution>, formulas: seq<Node>)
    ensures Solution(Rat(-1, 1), 0, 1) in r && formulas != []
  {
    var reg := new Registry(1);
    assert Atoi("1") == Some(1);
    var one := reg.Atos("1", 0, 1);
    assert reg.solutions[one] == [Leaf(one.val)];
    assert Lookup(reg.solutions, one)[0].op == Null;
    assert Negatable(Lookup(reg.solutions, one));
    assert One(one.val) && Negated(one) == Solution(Rat(-1, 1), 0, 1);
    r := reg.AllUnary(one);
    reg.KeyHasFormulas(Solution(Rat(-1, 1), 0, 1));
    formulas := Lookup(reg.solutions, Solution(Rat(-1, 1), 0, 1));
  }
}
