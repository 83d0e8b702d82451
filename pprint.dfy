/** The infix rendering of formula trees (pprint.go): binary operators
    between their operands with spaces around them, factorial as a suffix,
    square root as a call, unary minus as a prefix, and parentheses around
    operands that could otherwise be misread. */
module Printing {
  import opened Wrappers
  import Text
  import Rational
  import opened Nodes

  /** Go's needParenthesis: the node is a binary operation. */
  predicate NeedParenthesis(n: Node)
  {
    Code(Add) <= Code(n.op) <= Code(Pow)
  }

  function Parenthesized(s: string): string
  {
    "(" + s + ")"
  }

  /** s, in parentheses when c holds. */
  function WrapIf(s: string, c: bool): string
  {
    if c then Parenthesized(s) else s
  }

  /** Go's String on a node. A leaf prints its fraction; Go recognises a
      leaf by both operands printing as empty text, which on a well-formed
      tree happens exactly at the leaves, since no node prints as empty text.
      The "<UNDEFINED>" fallback of Go is for a Null operator with operands,
      which a well-formed tree does not have. */
  function String(n: Node): (s: string)
    requires WellFormed(n)
    ensures |s| > 0
  {
    if n.op == Null then Rational.String(n.val)
    else
      var l := n.left.value;
      var left := String(l);
      if n.op == Sqrt then "sqrt(" + left + ")"
      else if n.op == Minus then "-" + WrapIf(left, NeedParenthesis(l) || l.op == Fact)
      else if n.op == Fact then WrapIf(left, NeedParenthesis(l) || l.op == Minus) + "!"
      else
        var right := WrapIf(String(n.right.value), NeedParenthesis(n.right.value));
        LeftPart(n.op, l, left) + Infix(n.op) + right
  }

  /** A binary operator's name with a space on each side. */
  function Infix(op: Op): string
  {
    " " + OpName(op) + " "
  }

  /** How a binary operator prints its left operand: bare under + and -,
      in parentheses under *, / and ^ when it is a binary operation, and
      under ^ also when it is a negation. */
  function LeftPart(op: Op, l: Node, left: string): string
  {
    if op == Add || op == Sub then left
    else if op == Pow then WrapIf(left, NeedParenthesis(l) || l.op == Minus)
    else WrapIf(left, NeedParenthesis(l))
  }

  // ---------------------------------------------------------------------
  // Parentheses are balanced

  function Delta(c: char): int
  {
    if c == '(' then 1 else if c == ')' then -1 else 0
  }

  /** Opening minus closing parentheses. */
  function Net(s: string): int
  {
    if s == [] then 0 else Net(s[..|s| - 1]) + Delta(s[|s| - 1])
  }

  /** The lowest Net over the prefixes of s, the empty one included. */
  function MinNet(s: string): int
  {
    if s == [] then 0 else Min(MinNet(s[..|s| - 1]), Net(s))
  }

  function Min(x: int, y: int): int
  {
    if x <= y then x else y
  }

  /** The whole string closes all the parentheses it opens, and no prefix
      closes more than it has opened. */
  predicate Balanced(s: string)
  {
    Net(s) == 0 && MinNet(s) >= 0
  }

  lemma {:induction false} MinNetIsMin(s: string, k: nat)
    requires k <= |s|
    ensures MinNet(s) <= Net(s[..k])
    decreases |s|
  {
    if s != [] {
      if k == |s| {
        assert s[..k] == s;
      } else {
        assert s[..|s| - 1][..k] == s[..k];
        MinNetIsMin(s[..|s| - 1], k);
      }
    }
  }

  /** Balanced means what it says: no prefix of the text has more closing
      than opening parentheses, and the text as a whole has as many of each. */
  lemma BalancedPrefixes(s: string)
    requires Balanced(s)
    ensures Net(s) == 0 && forall k :: 0 <= k <= |s| ==> Net(s[..k]) >= 0
  {
    forall k | 0 <= k <= |s| ensures Net(s[..k]) >= 0 {
      MinNetIsMin(s, k);
    }
  }

  lemma {:induction false} NetConcat(a: string, b: string)
    ensures Net(a + b) == Net(a) + Net(b)
    decreases |b|
  {
    if b != [] {
      assert (a + b)[..|a + b| - 1] == a + b[..|b| - 1];
      NetConcat(a, b[..|b| - 1]);
    } else {
      assert a + b == a;
    }
  }

  lemma {:induction false} MinNetBelowNet(s: string)
    ensures MinNet(s) <= Net(s)
  {
  }

  lemma {:induction false} MinNetConcat(a: string, b: string)
    ensures MinNet(a + b) == Min(MinNet(a), Net(a) + MinNet(b))
    decreases |b|
  {
    if b == [] {
      assert a + b == a;
      MinNetBelowNet(a);
    } else {
      var b' := b[..|b| - 1];
      assert (a + b)[..|a + b| - 1] == a + b';
      MinNetConcat(a, b');
      NetConcat(a, b);
    }
  }

  lemma BalancedConcat(a: string, b: string)
    requires Balanced(a) && Balanced(b)
    ensures Balanced(a + b)
  {
    NetConcat(a, b);
    MinNetConcat(a, b);
  }

  lemma {:induction false} PlainBalanced(s: string)
    requires '(' !in s && ')' !in s
    ensures Balanced(s)
    decreases |s|
  {
    if s != [] {
      PlainBalanced(s[..|s| - 1]);
    }
  }

  lemma ParenthesizedBalanced(s: string)
    requires Balanced(s)
    ensures Balanced(Parenthesized(s))
  {
    assert Net("(") == 1 && MinNet("(") == 0 by {
      assert "("[..0] == [];
    }
    assert Net(")") == -1 && MinNet(")") == -1 by {
      assert ")"[..0] == [];
    }
    NetConcat("(", s);
    MinNetConcat("(", s);
    NetConcat("(" + s, ")");
    MinNetConcat("(" + s, ")");
  }

  lemma WrapIfBalanced(s: string, c: bool)
    requires Balanced(s)
    ensures Balanced(WrapIf(s, c))
  {
    if c {
      ParenthesizedBalanced(s);
    }
  }

  /** The printed fraction has no parentheses. */
  lemma FractionPlain(v: Rational.Rat)
    ensures '(' !in Rational.String(v) && ')' !in Rational.String(v)
  {
    IntegerPlain(v.n);
    IntegerPlain(v.d);
  }

  lemma IntegerPlain(n: int)
    ensures var s := Text.IntToString(n); '(' !in s && ')' !in s
  {
    var s := Text.IntToString(n);
    if n < 0 {
      assert s[1..] == Text.NatToString(-n);
      assert forall i :: 1 <= i < |s| ==> Text.IsDigit(s[i]);
    } else {
      assert forall i :: 0 <= i < |s| ==> Text.IsDigit(s[i]);
    }
  }

  /** Every rendering has balanced parentheses. */
  lemma {:induction false} StringBalanced(n: Node)
    requires WellFormed(n)
    ensures Balanced(String(n))
  {
    if n.op == Null {
      FractionPlain(n.val);
      PlainBalanced(Rational.String(n.val));
    } else {
      StringBalanced(n.left.value);
      if n.right.Some? {
        StringBalanced(n.right.value);
        BinaryBalanced(n);
      } else {
        UnaryBalanced(n);
      }
    }
  }

  /** String at a binary node, in terms of its operands' renderings. */
  lemma StringOfBinary(n: Node)
    requires WellFormed(n) && IsBinary(n.op)
    ensures var l := n.left.value; var r := n.right.value;
      String(n) == LeftPart(n.op, l, String(l)) + Infix(n.op) + WrapIf(String(r), NeedParenthesis(r))
  {
  }

  lemma UnaryBalanced(n: Node)
    requires WellFormed(n) && IsUnary(n.op) && Balanced(String(n.left.value))
    ensures Balanced(String(n))
  {
    if n.op == Sqrt {
      SqrtBalanced(n);
    } else if n.op == Minus {
      MinusBalanced(n);
    } else {
      FactBalanced(n);
    }
  }

  lemma SqrtBalanced(n: Node)
    requires WellFormed(n) && n.op == Sqrt && Balanced(String(n.left.value))
    ensures Balanced(String(n))
  {
    CallBalanced(String(n.left.value));
  }

  lemma CallBalanced(x: string)
    requires Balanced(x)
    ensures Balanced("sqrt(" + x + ")")
  {
    PlainBalanced("sqrt");
    ParenthesizedBalanced(x);
    BalancedConcat("sqrt", Parenthesized(x));
    assert "sqrt(" + x + ")" == "sqrt" + Parenthesized(x);
  }

  lemma MinusBalanced(n: Node)
    requires WellFormed(n) && n.op == Minus && Balanced(String(n.left.value))
    ensures Balanced(String(n))
  {
    var l := n.left.value;
    PlainBalanced("-");
    WrapIfBalanced(String(l), NeedParenthesis(l) || l.op == Fact);
    BalancedConcat("-", WrapIf(String(l), NeedParenthesis(l) || l.op == Fact));
  }

  lemma FactBalanced(n: Node)
    requires WellFormed(n) && n.op == Fact && Balanced(String(n.left.value))
    ensures Balanced(String(n))
  {
    var l := n.left.value;
    PlainBalanced("!");
    WrapIfBalanced(String(l), NeedParenthesis(l) || l.op == Minus);
    BalancedConcat(WrapIf(String(l), NeedParenthesis(l) || l.op == Minus), "!");
  }

  lemma InfixBalanced(op: Op, lhs: string, rhs: string)
    requires IsBinary(op) && Balanced(lhs) && Balanced(rhs)
    ensures Balanced(lhs + Infix(op) + rhs)
  {
    PlainBalanced(Infix(op));
    BalancedConcat(lhs, Infix(op));
    BalancedConcat(lhs + Infix(op), rhs);
  }

  lemma BinaryBalanced(n: Node)
    requires WellFormed(n) && IsBinary(n.op)
    requires Balanced(String(n.left.value)) && Balanced(String(n.right.value))
    ensures Balanced(String(n))
  {
    var l := n.left.value;
    var r := n.right.value;
    var lhs := LeftPart(n.op, l, String(l));
    WrapIfBalanced(String(l), NeedParenthesis(l));
    WrapIfBalanced(String(l), NeedParenthesis(l) || l.op == Minus);
    WrapIfBalanced(String(r), NeedParenthesis(r));
    InfixBalanced(n.op, lhs, WrapIf(String(r), NeedParenthesis(r)));
    StringOfBinary(n);
  }

  // ---------------------------------------------------------------------
  // Where the parentheses go

  predicate EndsWith(s: string, t: string)
  {
    |t| <= |s| && s[|s| - |t|..] == t
  }

  predicate StartsWith(s: string, t: string)
  {
    |t| <= |s| && s[..|t|] == t
  }

  lemma EndsAfterSpace(a: string, b: string)
    requires |a| > 0 && a[|a| - 1] == ' '
    ensures EndsWith(a + b, " " + b)
  {
    var s := a + b;
    assert s[|s| - |b| - 1..] == [a[|a| - 1]] + b;
  }

  /** The right operand of a binary operator is in parentheses exactly when
      it is itself a binary operation. */
  lemma RightOperand(n: Node)
    requires WellFormed(n) && IsBinary(n.op)
    ensures var r := n.right.value;
      if IsBinary(r.op) then EndsWith(String(n), " (" + String(r) + ")")
      else EndsWith(String(n), " " + String(r))
  {
    var l := n.left.value;
    var r := n.right.value;
    var a := LeftPart(n.op, l, String(l)) + Infix(n.op);
    var right := WrapIf(String(r), NeedParenthesis(r));
    StringOfBinary(n);
    EndsAfterSpace(a, right);
    assert " " + Parenthesized(String(r)) == " (" + String(r) + ")";
  }

  /** Sums and differences print their left operand bare. */
  lemma AddSubLeftOperand(n: Node)
    requires WellFormed(n) && (n.op == Add || n.op == Sub)
    ensures StartsWith(String(n), String(n.left.value) + " " + OpName(n.op) + " ")
  {
  }

  /** Products and quotients put a binary left operand in parentheses and
      print any other bare. */
  lemma MulDivLeftOperand(n: Node)
    requires WellFormed(n) && (n.op == Mul || n.op == Div)
    ensures var l := n.left.value;
      if IsBinary(l.op) then StartsWith(String(n), "(" + String(l) + ") " + OpName(n.op) + " ")
      else StartsWith(String(n), String(l) + " " + OpName(n.op) + " ")
  {
  }

  /** Powers and factorials put a binary or negated left operand in
      parentheses; a factorial is the operand followed by "!". */
  lemma PowFactLeftOperand(n: Node)
    requires WellFormed(n) && (n.op == Pow || n.op == Fact)
    ensures var l := n.left.value;
      var left := if IsBinary(l.op) || l.op == Minus then "(" + String(l) + ")" else String(l);
      if n.op == Pow then StartsWith(String(n), left + " ^ ") else String(n) == left + "!"
  {
  }

  /** Square roots print as a call. */
  lemma SqrtOperand(n: Node)
    requires WellFormed(n) && n.op == Sqrt
    ensures String(n) == "sqrt(" + String(n.left.value) + ")"
  {
  }

  /** Negation puts a binary operand or a factorial in parentheses. */
  lemma MinusOperand(n: Node)
    requires WellFormed(n) && n.op == Minus
    ensures var l := n.left.value;
      if IsBinary(l.op) || l.op == Fact then String(n) == "-(" + String(l) + ")"
      else String(n) == "-" + String(l)
  {
    var l := n.left.value;
    assert String(n) == "-" + WrapIf(String(l), NeedParenthesis(l) || l.op == Fact);
  }

  /** A leaf prints as its fraction. */
  lemma LeafString(v: Rational.Rat)
    ensures String(Leaf(v)) == Rational.String(v)
  {
  }

  /** The negated factorial of a square root, as the package's own example
      prints it. */
  lemma NegatedFactorialExample()
    ensures var nine := Leaf(Rational.Rat(9, 1));
      var t := NewNode(Some(NewNode(Some(NewNode(Some(nine), Sqrt, None)), Fact, None)), Minus, None);
      WellFormed(t) && String(t) == "-(sqrt(9)!)"
  {
    var nine := Leaf(Rational.Rat(9, 1));
    assert Rational.String(Rational.Rat(9, 1)) == "9" by {
      assert Text.IntToString(9) == "9";
    }
  }
}
