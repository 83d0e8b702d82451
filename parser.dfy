/** The Polish-notation reader of node.go (ParseString and
    parseNodeFromString). Operators come first; operands may be separated by
    spaces; a fraction is written a/b with no spaces around the slash; unary
    minus is written "--" so that a lone "-" is subtraction. The reader takes
    as much of the input as one formula needs and hands back the rest. */
module Parser {
  import opened Wrappers
  import opened Text
  import opened Rational
  import opened Nodes

  // ---------------------------------------------------------------------
  // The literal scanner (the regular expression -?[0-9]+(/[0-9]+)?)

  /** The end of the run of digits that starts at i. */
  function DigitRun(s: string, i: nat): (j: nat)
    requires i <= |s|
    ensures i <= j <= |s|
    ensures forall k :: i <= k < j ==> IsDigit(s[k])
    ensures j < |s| ==> !IsDigit(s[j])
    decreases |s| - i
  {
    if i < |s| && IsDigit(s[i]) then DigitRun(s, i + 1) else i
  }

  /** The length of the longest prefix of s of the form -?[0-9]+(/[0-9]+)?,
      if there is one. The regular expression also allows leading white
      space, but the reader trims its input first, so there is none. */
  function LiteralEnd(s: string): (e: Option<nat>)
    ensures e.Some? ==> 0 < e.value <= |s|
  {
    var i := if |s| > 0 && s[0] == '-' then 1 else 0;
    var j := DigitRun(s, i);
    if j == i then None
    else if j + 1 < |s| && s[j] == '/' && IsDigit(s[j + 1]) then Some(DigitRun(s, j + 1))
    else Some(j)
  }

  lemma AtoiOfNumeral(x: string)
    requires (|x| > 0 && AllDigits(x)) || (|x| > 1 && x[0] == '-' && AllDigits(x[1..]))
    ensures Atoi(x).Some?
  {
  }

  /** Every scanned literal is a fraction newRational accepts, so the
      fatal error there cannot be reached from the reader. */
  lemma LiteralParses(s: string, e: nat)
    requires LiteralEnd(s) == Some(e)
    ensures NewRational(s[..e]).Some?
  {
    var i := if |s| > 0 && s[0] == '-' then 1 else 0;
    var j := DigitRun(s, i);
    NumeralPart(s, i, j);
    if e != j {
      DigitsPart(s, j + 1, e);
      FractionParses(s, j, e);
    }
  }

  /** The optionally signed run of digits at the start of a literal is a
      number without a slash. */
  lemma NumeralPart(s: string, i: nat, j: nat)
    requires i == (if |s| > 0 && s[0] == '-' then 1 else 0)
    requires i < j <= |s| && forall k :: i <= k < j ==> IsDigit(s[k])
    ensures '/' !in s[..j] && Atoi(s[..j]).Some?
  {
    var x := s[..j];
    assert '/' !in x by {
      forall k | 0 <= k < |x| ensures x[k] != '/' {
        if k >= i { assert IsDigit(s[k]); }
      }
    }
    if i == 1 {
      assert x[1..] == s[1..j];
    }
    AtoiOfNumeral(x);
  }

  /** A run of digits is a number without a slash. */
  lemma DigitsPart(s: string, i: nat, j: nat)
    requires i < j <= |s| && forall k :: i <= k < j ==> IsDigit(s[k])
    ensures '/' !in s[i..j] && Atoi(s[i..j]).Some?
  {
    var y := s[i..j];
    assert AllDigits(y);
    assert '/' !in y by {
      forall k | 0 <= k < |y| ensures y[k] != '/' {
        assert IsDigit(s[i + k]);
      }
    }
    AtoiOfNumeral(y);
  }

  /** Two numbers joined by one slash make a fraction. */
  lemma FractionParses(s: string, j: nat, e: nat)
    requires j < e <= |s| && s[j] == '/'
    requires '/' !in s[..j] && Atoi(s[..j]).Some?
    requires '/' !in s[j + 1..e] && Atoi(s[j + 1..e]).Some?
    ensures NewRational(s[..e]).Some?
  {
    var x, y := s[..j], s[j + 1..e];
    var t := x + ['/'] + y;
    assert s[..e] == t;
    SplitAtSeparator(x, y, '/');
    SplitNoSeparator(y, '/');
    assert Split(t, '/') == [x, y];
    assert t[|x|] == '/';
    assert NewRational(t) == Parts([x, y]);
  }

  // ---------------------------------------------------------------------
  // Operators

  /** The operator a one-character name denotes; "-" is read as
      subtraction. */
  function OpOfChar(c: char): (op: Op)
    ensures op != Null ==> OpName(op) == [c] && (IsBinary(op) || op == Fact)
  {
    if c == '+' then Add
    else if c == '-' then Sub
    else if c == '*' then Mul
    else if c == '/' then Div
    else if c == '^' then Pow
    else if c == '!' then Fact
    else Null
  }

  /** The keys of opNames. */
  const AllOps: seq<Op> := [Null, Add, Sub, Mul, Div, Pow, Fact, Sqrt, Minus]

  /** OpOfChar is what a search of opNames for a one-character name finds,
      with unary minus read as subtraction. */
  lemma OpOfCharMeans(c: char)
    ensures forall op: Op :: OpName(op) == [c] ==> OpOfChar(c) == (if op == Minus then Sub else op)
    ensures OpOfChar(c) != Null <==> exists j :: 0 <= j < |AllOps| && OpName(AllOps[j]) == [c]
  {
    if OpOfChar(c) != Null {
      assert OpName(AllOps[Code(OpOfChar(c))]) == [c];
    }
  }

  /** The loop of parseNodeFromString over opNames: the last operator whose
      name is c, with unary minus read as subtraction; Null when none is. */
  method LookupOp(c: char) returns (op: Op)
    ensures op == OpOfChar(c)
  {
    OpOfCharMeans(c);
    op := Null;
    var i := 0;
    while i < |AllOps|
      invariant 0 <= i <= |AllOps|
      invariant op == (if exists j :: 0 <= j < i && OpName(AllOps[j]) == [c] then OpOfChar(c) else Null)
    {
      if OpName(AllOps[i]) == [c] {
        op := AllOps[i];
        if op == Minus {
          op := Sub;
        }
      }
      i := i + 1;
    }
  }

  // ---------------------------------------------------------------------
  // The reader

  datatype ParseError =
    | EmptyInput
    | UnrecognizedOperator(input: string)
    | FirstOperandMissing
    | SecondOperandMissing

  /** What parseNodeFromString returns: a tree or an error, and the input
      left over. */
  datatype Parsed = Parsed(node: Node, rest: string) | Failed(error: ParseError, rest: string)

  predicate HasPrefix(s: string, p: string)
  {
    |p| <= |s| && s[..|p|] == p
  }

  /** The leaf for the literal that ends at e. */
  function LiteralLeaf(s: string, e: nat): (n: Node)
    requires LiteralEnd(s) == Some(e)
    ensures WellFormed(n) && n.op == Null
  {
    LiteralParses(s, e);
    Leaf(NewRational(s[..e]).value)
  }

  /** The operator at the head of a trimmed input that is not a literal,
      and the input after its name: "sqrt", then "--", then a
      one-character name. */
  function OperatorAt(s: string): (r: (Op, string))
    requires s != ""
    ensures r.0 != Null ==> |r.1| < |s|
    ensures r.0 != Null ==> IsBinary(r.0) || IsUnary(r.0)
  {
    if HasPrefix(s, "sqrt") then (Sqrt, s[4..])
    else if HasPrefix(s, "--") then (Minus, s[2..])
    else (OpOfChar(s[0]), s[1..])
  }

  /** The node of a unary operator over a parsed operand. */
  function UnaryNode(op: Op, l: Node): (n: Node)
    requires IsUnary(op) && WellFormed(l)
    ensures WellFormed(n) && n == Node(Some(l), None, BadRat, op)
  {
    NewNode(Some(l), op, None)
  }

  /** The node of a binary operator over parsed operands. */
  function BinaryNode(op: Op, l: Node, r: Node): (n: Node)
    requires IsBinary(op) && WellFormed(l) && WellFormed(r)
    ensures WellFormed(n) && n == Node(Some(l), Some(r), BadRat, op)
  {
    NewNode(Some(l), op, Some(r))
  }

  /** parseNodeFromString: a literal first, then "sqrt", "--" or a
      one-character operator followed by its operands. A tree that comes
      back is well formed, and the rest is a proper suffix of the input. */
  function Parse(s0: string): (p: Parsed)
    ensures |p.rest| <= |s0|
    ensures p.Parsed? ==> WellFormed(p.node) && |p.rest| < |s0|
    decreases |s0|, 1
  {
    ParseTrimmed(TrimSpace(s0))
  }

  /** Parse after the input has been trimmed. */
  function ParseTrimmed(s: string): (p: Parsed)
    ensures |p.rest| <= |s|
    ensures p.Parsed? ==> WellFormed(p.node) && |p.rest| < |s|
    decreases |s|, 0
  {
    var lit := LiteralEnd(s);
    if lit.Some? then Parsed(LiteralLeaf(s, lit.value), s[lit.value..])
    else if s == "" then Failed(EmptyInput, "")
    else
      var (op, s1) := OperatorAt(s);
      if op == Null then Failed(UnrecognizedOperator(s), s[1..])
      else if s1 == "" then Failed(FirstOperandMissing, s1)
      else
        var p1 := Parse(s1);
        if p1.Failed? then p1
        else if IsUnary(op) then Parsed(UnaryNode(op, p1.node), p1.rest)
        else
          var p2 := Parse(p1.rest);
          if p2.Failed? then Failed(SecondOperandMissing, p2.rest)
          else Parsed(BinaryNode(op, p1.node, p2.node), p2.rest)
  }

  /** parseNodeFromString as Go runs it, with the operator search as a
      loop; it computes Parse. */
  method ParseNodeFromString(s0: string) returns (p: Parsed)
    ensures p == Parse(s0)
    decreases |s0|, 1
  {
    var s := TrimSpace(s0);
    ghost var trimmed := s;
    assert Parse(s0) == ParseTrimmed(trimmed);
    var lit := LiteralEnd(s);
    if lit.Some? {
      return Parsed(LiteralLeaf(s, lit.value), s[lit.value..]);
    }
    if s == "" {
      return Failed(EmptyInput, "");
    }
    var op: Op;
    if HasPrefix(s, "sqrt") {
      op := Sqrt;
      s := s[4..];
    } else if HasPrefix(s, "--") {
      op := Minus;
      s := s[2..];
    } else {
      op := LookupOp(s[0]);
      if op == Null {
        return Failed(UnrecognizedOperator(s), s[1..]);
      }
      s := s[1..];
    }
    assert (op, s) == OperatorAt(trimmed);
    p := ReadOperands(op, s, trimmed);
  }

  /** The rest of parseNodeFromString once the operator op of the trimmed
      input has been read: its one or two operands from s. */
  method ReadOperands(op: Op, s: string, ghost trimmed: string) returns (p: Parsed)
    requires trimmed != "" && LiteralEnd(trimmed).None?
    requires OperatorAt(trimmed) == (op, s) && op != Null
    ensures p == ParseTrimmed(trimmed)
    decreases |trimmed|, 0
  {
    if s == "" {
      return Failed(FirstOperandMissing, s);
    }
    var p1 := ParseNodeFromString(s);
    if p1.Failed? {
      return p1;
    }
    if Code(op) > Code(Pow) {
      return Parsed(UnaryNode(op, p1.node), p1.rest);
    }
    var p2 := ParseNodeFromString(p1.rest);
    if p2.Failed? {
      return Failed(SecondOperandMissing, p2.rest);
    }
    return Parsed(BinaryNode(op, p1.node, p2.node), p2.rest);
  }

  /** ParseString: trim, read one formula, ignore what is left. */
  function ParseString(s: string): (r: Result<Node, ParseError>)
    ensures r.Ok? ==> WellFormed(r.value)
    ensures r.Ok? <==> Parse(TrimSpace(s)).Parsed?
  {
    var p := Parse(TrimSpace(s));
    if p.Failed? then Err(p.error) else Ok(p.node)
  }

  // ---------------------------------------------------------------------
  // The printed form the reader inverts

  /** Formatted integers start with a sign or a digit and end with a digit. */
  lemma IntToStringEnds(n: int)
    ensures var s := IntToString(n); (s[0] == '-' || IsDigit(s[0])) && IsDigit(s[|s| - 1])
  {
    if n < 0 {
      var s := IntToString(n);
      assert s[|s| - 1] == NatToString(-n)[|NatToString(-n)| - 1];
    }
  }

  lemma StringEnds(v: Rat)
    ensures var s := String(v); (s[0] == '-' || IsDigit(s[0])) && IsDigit(s[|s| - 1])
  {
    IntToStringEnds(v.n);
    IntToStringEnds(v.d);
  }

  /** Neither end is white space. */
  predicate Trimmed(s: string)
  {
    |s| > 0 && !IsSpace(s[0]) && !IsSpace(s[|s| - 1])
  }

  /** The head token of an operator in the printed form: its name, with
      unary minus written "--". */
  function Head(op: Op): string
  {
    if op == Minus then "--" else OpName(op)
  }

  lemma HeadTrimmed(op: Op)
    requires op != Null
    ensures Trimmed(Head(op))
  {
  }

  /** A tree in the notation the reader takes: operator first, tokens
      separated by one space, leaves as String prints them. */
  function Polish(n: Node): (s: string)
    requires WellFormed(n)
    ensures Trimmed(s)
  {
    if n.op == Null then
      StringEnds(n.val);
      String(n.val)
    else
      HeadTrimmed(n.op);
      SpacedTrimmed(Head(n.op), Polish(n.left.value));
      var l := Head(n.op) + " " + Polish(n.left.value);
      if n.right.None? then l
      else
        SpacedTrimmed(l, Polish(n.right.value));
        l + " " + Polish(n.right.value)
  }

  /** Two trimmed strings joined by a space make a trimmed string. */
  lemma SpacedTrimmed(a: string, b: string)
    requires Trimmed(a) && Trimmed(b)
    ensures Trimmed(a + " " + b)
  {
    var s := a + " " + b;
    assert s[0] == a[0] && s[|s| - 1] == b[|b| - 1];
  }

  /** The trees the print-and-read round trip covers: well formed, leaves
      with a positive denominator, operator nodes with the zero fraction
      newNode gives them. The reader also makes leaves with a zero
      denominator, from text such as "3/0"; the round trip leaves those out. */
  predicate Printable(n: Node)
  {
    WellFormed(n) && ReaderVals(n)
  }

  predicate ReaderVals(n: Node)
  {
    (n.op == Null ==> n.val.d > 0)
    && (n.op != Null ==> n.val == BadRat)
    && (n.left.Some? ==> ReaderVals(n.left.value))
    && (n.right.Some? ==> ReaderVals(n.right.value))
  }

  /** What may follow a formula for the reader to stop right after it: nothing,
      or a space and more text that does not end in white space. */
  predicate Separated(rest: string)
  {
    rest == "" || (rest[0] == ' ' && !IsSpace(rest[|rest| - 1]))
  }

  lemma {:induction false} DigitRunTo(s: string, i: nat, j: nat)
    requires i <= j <= |s|
    requires forall k :: i <= k < j ==> IsDigit(s[k])
    requires j == |s| || !IsDigit(s[j])
    ensures DigitRun(s, i) == j
    decreases j - i
  {
    if i < j {
      DigitRunTo(s, i + 1, j);
    }
  }

  /** A run of digits copied into s ends where the copy ends. */
  lemma RunOfDigits(s: string, i: nat, y: string)
    requires i + |y| <= |s| && s[i..i + |y|] == y && AllDigits(y)
    requires i + |y| == |s| || !IsDigit(s[i + |y|])
    ensures DigitRun(s, i) == i + |y|
  {
    forall k | i <= k < i + |y| ensures IsDigit(s[k]) {
      assert s[k] == y[k - i];
    }
    DigitRunTo(s, i, i + |y|);
  }

  /** The scanner reads a formatted integer up to its end. */
  lemma IntegerRun(n: int, s: string)
    requires var x := IntToString(n); |x| <= |s| && s[..|x|] == x
    requires var x := IntToString(n); |s| == |x| || !IsDigit(s[|x|])
    ensures var i := if |s| > 0 && s[0] == '-' then 1 else 0;
      i < |IntToString(n)| && DigitRun(s, i) == |IntToString(n)|
  {
    var x := IntToString(n);
    if n < 0 {
      assert x[1..] == NatToString(-n);
      assert s[0] == x[0] == '-';
      assert s[1..|x|] == NatToString(-n);
      RunOfDigits(s, 1, NatToString(-n));
    } else {
      assert s[0] == x[0] && IsDigit(x[0]);
      assert s[0..|x|] == x;
      RunOfDigits(s, 0, x);
    }
  }

  /** The two ways a literal ends: after its numerator, when no slash and
      digit follow, or after the digits that follow the slash. */
  lemma LiteralEndCases(s: string, j: nat)
    requires var i := if |s| > 0 && s[0] == '-' then 1 else 0; i < j && DigitRun(s, i) == j
    ensures !(j + 1 < |s| && s[j] == '/' && IsDigit(s[j + 1])) ==> LiteralEnd(s) == Some(j)
    ensures j + 1 < |s| && s[j] == '/' && IsDigit(s[j + 1]) ==> LiteralEnd(s) == Some(DigitRun(s, j + 1))
  {
  }

  /** The scanner takes exactly the printed fraction. */
  lemma LiteralOfString(v: Rat, rest: string)
    requires v.d > 0 && Separated(rest)
    ensures LiteralEnd(String(v) + rest) == Some(|String(v)|)
  {
    if v.d == 1 {
      LiteralOfInteger(v, rest);
    } else {
      LiteralOfFraction(v, rest);
    }
  }

  lemma LiteralOfInteger(v: Rat, rest: string)
    requires v.d == 1 && Separated(rest)
    ensures LiteralEnd(String(v) + rest) == Some(|String(v)|)
  {
    var s := String(v) + rest;
    var x := IntToString(v.n);
    assert String(v) == x;
    assert s[..|x|] == x && s[|x|..] == rest;
    IntegerRun(v.n, s);
    LiteralEndCases(s, |x|);
  }

  lemma LiteralOfFraction(v: Rat, rest: string)
    requires v.d > 1 && Separated(rest)
    ensures LiteralEnd(String(v) + rest) == Some(|String(v)|)
  {
    var x := IntToString(v.n);
    var y := NatToString(v.d);
    assert String(v) == x + "/" + y;
    FractionScan(v.n, y, rest);
  }

  lemma FractionScan(n: int, y: string, rest: string)
    requires |y| > 0 && AllDigits(y) && Separated(rest)
    ensures var x := IntToString(n); LiteralEnd(x + "/" + y + rest) == Some(|x| + 1 + |y|)
  {
    var x := IntToString(n);
    var s := x + "/" + y + rest;
    var e := |x| + 1 + |y|;
    Pieces(x, y, rest);
    IntegerRun(n, s);
    RunOfDigits(s, |x| + 1, y);
    assert IsDigit(s[|x| + 1]) by { assert s[|x| + 1] == y[0]; }
    LiteralEndCases(s, |x|);
  }

  lemma Pieces(x: string, y: string, rest: string)
    ensures var s := x + "/" + y + rest; var e := |x| + 1 + |y|;
      s[..|x|] == x && s[|x|] == '/' && s[|x| + 1..e] == y && s[e..] == rest
  {
  }

  /** A formula followed by what may follow it is trimmed already. */
  lemma JoinTrimmed(t: string, rest: string)
    requires Trimmed(t) && Separated(rest)
    ensures Trimmed(t + rest)
    ensures Separated(" " + (t + rest))
  {
    var s := t + rest;
    assert s[0] == t[0];
    assert s[|s| - 1] == if rest == "" then t[|t| - 1] else rest[|rest| - 1];
    assert (" " + s)[0] == ' ';
    assert (" " + s)[|" " + s| - 1] == s[|s| - 1];
  }

  /** The printed form of an operator node, split after its head token. */
  lemma PolishSplit(n: Node, rest: string)
    requires WellFormed(n) && n.op != Null
    ensures var rest1 := if n.right.None? then rest else " " + (Polish(n.right.value) + rest);
      Polish(n) + rest == Head(n.op) + " " + (Polish(n.left.value) + rest1)
  {
  }

  /** The reader looks at its input only after trimming it. */
  lemma ParseOfTrimmed(a: string, b: string)
    requires TrimSpace(a) == TrimSpace(b)
    ensures Parse(a) == Parse(b)
  {
  }

  lemma SplitAfter(h: string, tail: string)
    ensures var s := h + " " + tail;
      s[..|h|] == h && s[|h|] == ' ' && s[|h|..] == " " + tail
  {
  }

  /** Reading the printed form of an operator node starts with that operator,
      and leaves a space and the printed operands. */
  lemma OperatorOfPolish(op: Op, tail: string)
    requires op != Null
    ensures var s := Head(op) + " " + tail;
      LiteralEnd(s) == None && OperatorAt(s) == (op, " " + tail)
  {
    var h := Head(op);
    var s := h + " " + tail;
    SplitAfter(h, tail);
    if op == Sqrt {
      assert HasPrefix(s, "sqrt");
    } else if op == Minus {
      assert !HasPrefix(s, "sqrt") by { assert s[0] != 's'; }
      assert HasPrefix(s, "--");
    } else {
      assert |h| == 1 && s[0] == h[0] && s[1] == ' ';
      assert !HasPrefix(s, "sqrt") by { assert s[0] != 's'; }
      assert !HasPrefix(s, "--") by { assert s[1] != '-'; }
    }
  }

  /** One step of the reader on a trimmed input that starts with a unary
      operator whose operand reads. */
  lemma ParseUnaryStep(s: string, op: Op, tail: string, l: Node, rest: string)
    requires Trimmed(s) && LiteralEnd(s) == None
    requires OperatorAt(s) == (op, tail) && IsUnary(op) && tail != ""
    requires Parse(tail) == Parsed(l, rest)
    ensures Parse(s) == Parsed(UnaryNode(op, l), rest)
  {
    TrimSpaceOfTrimmed(s);
  }

  /** One step of the reader on a trimmed input that starts with a binary
      operator whose operands read. */
  lemma ParseBinaryStep(s: string, op: Op, tail: string, l: Node, mid: string, r: Node, rest: string)
    requires Trimmed(s) && LiteralEnd(s) == None
    requires OperatorAt(s) == (op, tail) && IsBinary(op) && tail != ""
    requires Parse(tail) == Parsed(l, mid) && Parse(mid) == Parsed(r, rest)
    ensures Parse(s) == Parsed(BinaryNode(op, l, r), rest)
  {
    TrimSpaceOfTrimmed(s);
  }

  /** The reader on a trimmed input that starts with a literal. */
  lemma ParseLiteralStep(s: string, e: nat)
    requires Trimmed(s) && LiteralEnd(s) == Some(e)
    ensures Parse(s) == Parsed(LiteralLeaf(s, e), s[e..])
  {
    TrimSpaceOfTrimmed(s);
  }

  /** The reader inverts the printer: it reads back the tree and stops right
      after it. */
  lemma {:induction false} ParsePolish(n: Node, rest: string)
    requires Printable(n) && Separated(rest)
    ensures Parse(Polish(n) + rest) == Parsed(n, rest)
  {
    var t := Polish(n);
    var s := t + rest;
    JoinTrimmed(t, rest);
    if n.op == Null {
      LiteralOfString(n.val, rest);
      NewRationalOfString(n.val);
      assert s[..|t|] == t && s[|t|..] == rest;
      ParseLiteralStep(s, |t|);
    } else {
      ValidIffShape(n);
      var l := n.left.value;
      var rest1 := if n.right.None? then rest else " " + (Polish(n.right.value) + rest);
      if n.right.Some? {
        JoinTrimmed(Polish(n.right.value), rest);
      }
      var tail := Polish(l) + rest1;
      PolishSplit(n, rest);
      OperatorOfPolish(n.op, tail);
      ParsePolish(l, rest1);
      StepOverSpace(tail);
      if n.right.None? {
        ParseUnaryStep(s, n.op, " " + tail, l, rest);
      } else {
        var r := n.right.value;
        ParsePolish(r, rest);
        StepOverSpace(Polish(r) + rest);
        ParseBinaryStep(s, n.op, " " + tail, l, rest1, r, rest);
      }
    }
  }

  /** A space in front of the input changes nothing. */
  lemma StepOverSpace(t: string)
    ensures Parse(" " + t) == Parse(t)
  {
    TrimSpaceOfPadded(" " + t);
    assert (" " + t)[1..] == t;
    ParseOfTrimmed(" " + t, t);
  }

  /** ParseString reads back every printed tree. */
  lemma ParseStringOfPolish(n: Node)
    requires Printable(n)
    ensures ParseString(Polish(n)) == Ok(n)
  {
    TrimSpaceOfTrimmed(Polish(n));
    ParsePolish(n, "");
    assert Polish(n) + "" == Polish(n);
  }

  /** Input that is empty after trimming is refused as empty. */
  lemma ParseEmpty(s: string)
    requires TrimSpace(s) == ""
    ensures ParseString(s) == Err(EmptyInput)
  {
    assert TrimSpace("") == "";
    assert Parse("") == ParseTrimmed("");
  }

  /** Input that starts with neither a literal nor an operator name is
      refused, and the error carries the trimmed input. */
  lemma ParseUnrecognized(s: string)
    requires Trimmed(s) && !IsDigit(s[0]) && !HasPrefix(s, "sqrt") && OpOfChar(s[0]) == Null
    ensures ParseString(s) == Err(UnrecognizedOperator(s))
  {
    TrimSpaceOfTrimmed(s);
    assert LiteralEnd(s) == None;
    assert !HasPrefix(s, "--");
    assert Parse(s) == ParseTrimmed(s);
    assert ParseTrimmed(s) == Failed(UnrecognizedOperator(s), s[1..]);
  }

  /** An operator with nothing after it misses its first operand. */
  lemma ParseFirstMissing(op: Op)
    requires op != Null
    ensures ParseString(Head(op)) == Err(FirstOperandMissing)
  {
    var s := Head(op);
    assert Trimmed(s);
    TrimSpaceOfTrimmed(s);
    if op == Sqrt {
      assert HasPrefix(s, "sqrt");
    } else if op == Minus {
      assert !HasPrefix(s, "sqrt") && HasPrefix(s, "--");
    } else {
      assert !HasPrefix(s, "sqrt") && !HasPrefix(s, "--");
    }
    assert OperatorAt(s) == (op, "");
    assert Parse(s) == ParseTrimmed(s);
    assert ParseTrimmed(s) == Failed(FirstOperandMissing, "");
  }

  /** A binary operator followed by one printed operand misses its second. */
  lemma ParseSecondMissing(op: Op, l: Node)
    requires IsBinary(op) && Printable(l)
    ensures ParseString(Head(op) + " " + Polish(l)) == Err(SecondOperandMissing)
  {
    var tail := Polish(l) + "";
    assert tail == Polish(l);
    var s := Head(op) + " " + tail;
    OperatorOfPolish(op, tail);
    ParsePolish(l, "");
    StepOverSpace(tail);
    HeadTrimmed(op);
    SpacedTrimmed(Head(op), tail);
    ParseEmpty("");
    ParseSecondMissingStep(s, op, " " + tail, l, "");
    TrimSpaceOfTrimmed(s);
  }

  lemma ParseSecondMissingStep(s: string, op: Op, tail: string, l: Node, mid: string)
    requires Trimmed(s) && LiteralEnd(s) == None
    requires OperatorAt(s) == (op, tail) && IsBinary(op) && tail != ""
    requires Parse(tail) == Parsed(l, mid) && Parse(mid).Failed?
    ensures Parse(s) == Failed(SecondOperandMissing, Parse(mid).rest)
  {
    TrimSpaceOfTrimmed(s);
  }
}
