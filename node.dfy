/** Formula trees (node.go): the operator set, the node shape and its
    validity, depth, structural equality and evaluation with error
    propagation. A Go `*Node` that may be nil is an `Option<Node>` here;
    nodes are never mutated once built, so a tree is a value. */
module Nodes {
  import opened Wrappers
  import opened Rational

  /** The operators, in the order of their Go codes. */
  datatype Op = Null | Add | Sub | Mul | Div | Pow | Fact | Sqrt | Minus

  /** The numeric Go code of an operator; the code compares operators by it. */
  function Code(op: Op): nat
  {
    match op
    case Null => 0
    case Add => 1
    case Sub => 2
    case Mul => 3
    case Div => 4
    case Pow => 5
    case Fact => 6
    case Sqrt => 7
    case Minus => 8
  }

  /** Add..Pow take two operands. */
  predicate IsBinary(op: Op)
  {
    Code(Add) <= Code(op) <= Code(Pow)
  }

  /** Fact, Sqrt and Minus take one operand. */
  predicate IsUnary(op: Op)
  {
    Code(op) >= Code(Fact)
  }

  /** The operator names (opNames); unary minus shares "-" with Sub. */
  function OpName(op: Op): string
  {
    match op
    case Null => "NULL"
    case Add => "+"
    case Sub => "-"
    case Mul => "*"
    case Div => "/"
    case Pow => "^"
    case Fact => "!"
    case Sqrt => "sqrt"
    case Minus => "-"
  }

  /** A formula node: a leaf holds `val`; an operator node holds its operands
      (a unary one in `left`). Go keeps a `val` in every node. */
  datatype Node = Node(left: Option<Node>, right: Option<Node>, val: Rat, op: Op)

  /** Go's valid: the shape of this one node, children not inspected. */
  predicate Valid(n: Node)
  {
    if n.op == Null then n.left.None? && n.right.None?
    else if Code(n.op) <= Code(Pow) then n.left.Some? && n.right.Some?
    else n.left.Some? && n.right.None?
  }

  /** Every node of the tree is valid. */
  predicate WellFormed(n: Node)
  {
    Valid(n)
    && (n.left.Some? ==> WellFormed(n.left.value))
    && (n.right.Some? ==> WellFormed(n.right.value))
  }

  /** Go's newNode, which panics on an invalid shape; the panic is the
      precondition here. The new node's own `val` is Go's zero fraction. */
  function NewNode(left: Option<Node>, op: Op, right: Option<Node>): (n: Node)
    requires Valid(Node(left, right, BadRat, op))
    ensures Valid(n) && n.op == op
    ensures (left.Some? && WellFormed(left.value) && (right.Some? ==> WellFormed(right.value))) ==> WellFormed(n)
  {
    Node(left, right, BadRat, op)
  }

  /** Go's newValNode: a leaf. */
  function Leaf(v: Rat): (n: Node)
    ensures WellFormed(n) && n.op == Null
  {
    Node(None, None, v, Null)
  }

  lemma ValidIffShape(n: Node)
    ensures Valid(n) <==>
      (n.op == Null && n.left.None? && n.right.None?)
      || (IsBinary(n.op) && n.left.Some? && n.right.Some?)
      || (IsUnary(n.op) && n.left.Some? && n.right.None?)
  {
  }

  /** The number of nodes. */
  function Size(n: Node): nat
  {
    1 + (if n.left.Some? then Size(n.left.value) else 0)
      + (if n.right.Some? then Size(n.right.value) else 0)
  }

  /** Go's Depth: the distance from the root to its deepest leaf. */
  function Depth(n: Node): (d: nat)
    requires WellFormed(n)
    ensures d == 0 <==> n.op == Null
  {
    if n.op == Null then 0
    else
      var l := Depth(n.left.value);
      var r := if n.right.Some? then Depth(n.right.value) else 0;
      1 + (if r > l then r else l)
  }

  /** A tree is strictly deeper than each of its subtrees, and its depth is
      below its size. */
  lemma {:induction false} DepthBounds(n: Node)
    requires WellFormed(n)
    ensures Depth(n) < Size(n)
    ensures n.left.Some? ==> Depth(n.left.value) < Depth(n)
    ensures n.right.Some? ==> Depth(n.right.value) < Depth(n)
  {
    if n.left.Some? { DepthBounds(n.left.value); }
    if n.right.Some? { DepthBounds(n.right.value); }
  }

  /** Go's Equal: the same operator, leaves with equal fractions, operands
      equal in order. Go dereferences the operands of `n`, so `n` must be
      well formed; `m` may be anything, nil included. */
  predicate Equal(n: Node, m: Option<Node>)
    requires WellFormed(n)
  {
    if m.None? || n.op != m.value.op then false
    else if n.op != Null then
      Equal(n.left.value, m.value.left)
      && (n.right.None? || Equal(n.right.value, m.value.right))
    else Rational.Equal(n.val, m.value.val)
  }

  /** What Equal looks at: the tree with every leaf normalized and the
      `val` of every operator node erased. */
  function Shape(n: Node): Node
  {
    Node(
      if n.left.Some? then Some(Shape(n.left.value)) else None,
      if n.right.Some? then Some(Shape(n.right.value)) else None,
      if n.op == Null then Normalize(n.val) else BadRat,
      n.op)
  }

  /** Equal is exactly equality of shapes, so on well-formed trees it is an
      equivalence relation. */
  lemma {:induction false} EqualIffSameShape(n: Node, m: Node)
    requires WellFormed(n) && WellFormed(m)
    ensures Equal(n, Some(m)) <==> Shape(n) == Shape(m)
  {
    if n.op == m.op && n.op != Null {
      EqualIffSameShape(n.left.value, m.left.value);
      if n.right.Some? {
        EqualIffSameShape(n.right.value, m.right.value);
      }
    }
  }

  /** Why an evaluation failed. */
  datatype EvalError =
    | UndefinedOperation
    | NotEnoughArguments(op: Op)
    | RightOperandNotEmpty(op: Op)
    | LeftOperandEmpty(op: Op)
    | DivisionByZero
    | Arithmetic(cause: RatError)

  /** A binary operator applied to evaluated operands. */
  function Apply2(op: Op, l: Rat, r: Rat): Result<Rat, EvalError>
    requires IsBinary(op)
  {
    match op
    case Add => Ok(Rational.Add(l, r))
    case Sub => Ok(Rational.Sub(l, r))
    case Mul => Ok(Rational.Mul(l, r))
    case Div => if Zero(r) then Err(DivisionByZero) else Ok(Rational.Div(l, r))
    case Pow =>
      var p := Rational.Pow(l, r);
      if p.Ok? then Ok(p.value) else Err(Arithmetic(p.error))
  }

  /** A unary operator applied to an evaluated operand. */
  function Apply1(op: Op, l: Rat): Result<Rat, EvalError>
    requires IsUnary(op)
  {
    match op
    case Fact =>
      var f := Rational.Fact(l);
      if f.Ok? then Ok(f.value) else Err(Arithmetic(f.error))
    case Sqrt =>
      var s := Rational.Sqrt(l);
      if s.Ok? then Ok(s.value) else Err(Arithmetic(s.error))
    case Minus => Ok(Rational.Minus(l))
  }

  /** Go's Eval: a leaf gives its fraction; an operator node first checks its
      shape, then evaluates its operands left to right, passing the first
      error up. */
  function Eval(n: Node): Result<Rat, EvalError>
  {
    if n.op == Null then
      if n.left.None? && n.right.None? then Ok(n.val) else Err(UndefinedOperation)
    else if Code(n.op) < Code(Fact) then
      if n.left.None? || n.right.None? then Err(NotEnoughArguments(n.op))
      else
        var l := Eval(n.left.value);
        if l.Err? then l
        else
          var r := Eval(n.right.value);
          if r.Err? then r
          else Apply2(n.op, l.value, r.value)
    else if n.right.Some? then Err(RightOperandNotEmpty(n.op))
    else if n.left.None? then Err(LeftOperandEmpty(n.op))
    else
      var l := Eval(n.left.value);
      if l.Err? then l
      else Apply1(n.op, l.value)
  }

  /** A node of the wrong shape never evaluates, and neither does a node
      with an operand that does not. */
  lemma EvalNeedsShape(n: Node)
    ensures !Valid(n) ==> Eval(n).Err?
    ensures n.left.Some? && Eval(n.left.value).Err? ==> Eval(n).Err?
    ensures n.right.Some? && Eval(n.right.value).Err? ==> Eval(n).Err?
  {
  }

  /** A quotient whose divisor evaluates to zero fails. */
  lemma EvalDivisionByZero(n: Node)
    requires n.op == Div && n.left.Some? && n.right.Some?
    requires Eval(n.left.value).Ok? && Eval(n.right.value).Ok? && Zero(Eval(n.right.value).value)
    ensures Eval(n) == Err(DivisionByZero)
  {
  }

  /** Every leaf holds a canonical fraction. */
  predicate LeavesCanonical(n: Node)
  {
    (n.op == Null ==> Canonical(n.val))
    && (n.left.Some? ==> LeavesCanonical(n.left.value))
    && (n.right.Some? ==> LeavesCanonical(n.right.value))
  }

  lemma Apply2Canonical(op: Op, l: Rat, r: Rat)
    requires IsBinary(op) && Canonical(l) && Canonical(r) && Apply2(op, l, r).Ok?
    ensures Canonical(Apply2(op, l, r).value)
  {
    match op
    case Add => AddCanonical(l, r);
    case Sub => AddCanonical(l, Rat(-r.n, r.d));
    case Mul => MulCanonical(l, r);
    case Div => DivCanonical(l, r);
    case Pow => PowCanonical(l, r);
  }

  lemma Apply1Canonical(op: Op, l: Rat)
    requires IsUnary(op) && Canonical(l) && Apply1(op, l).Ok?
    ensures Canonical(Apply1(op, l).value)
  {
    match op
    case Fact =>
      FactCorrect(l);
      IntegerCanonical(Rational.Fact(l).value.n);
    case Sqrt => SqrtIsRoot(l);
    case Minus => MinusCorrect(l);
  }

  lemma BinaryCanonical(n: Node)
    requires n.op != Null && Code(n.op) < Code(Fact) && n.left.Some? && n.right.Some?
    requires Eval(n).Ok?
    requires Canonical(Eval(n.left.value).value) && Canonical(Eval(n.right.value).value)
    ensures Canonical(Eval(n).value)
  {
    Apply2Canonical(n.op, Eval(n.left.value).value, Eval(n.right.value).value);
  }

  lemma UnaryCanonical(n: Node)
    requires Code(n.op) >= Code(Fact) && n.left.Some? && n.right.None?
    requires Eval(n).Ok? && Canonical(Eval(n.left.value).value)
    ensures Canonical(Eval(n).value)
  {
    Apply1Canonical(n.op, Eval(n.left.value).value);
  }

  /** With canonical leaves every successful evaluation is canonical. */
  lemma {:induction false} EvalCanonical(n: Node)
    requires LeavesCanonical(n) && Eval(n).Ok?
    ensures Canonical(Eval(n).value)
  {
    if n.op != Null {
      EvalCanonical(n.left.value);
      if Code(n.op) < Code(Fact) {
        EvalCanonical(n.right.value);
        BinaryCanonical(n);
      } else {
        UnaryCanonical(n);
      }
    }
  }
}
