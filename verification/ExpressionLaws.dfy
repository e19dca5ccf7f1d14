/** The printed text of an expression determines it: a reader recovers every expression whose
    operands are leaves or parenthesised. */
module ExpressionLaws {
  import opened Wrappers
  import opened Expression

  // ---------------------------------------------------------------- the reader

  predicate IsDigit(c: char)
  {
    '0' <= c <= '9'
  }

  predicate IsLetter(c: char)
  {
    'a' <= c <= 'z' || 'A' <= c <= 'Z' || c == '_'
  }

  predicate IsWordChar(c: char)
  {
    IsDigit(c) || IsLetter(c)
  }

  /** How many leading characters of `s` are digits, or letters and digits. */
  function Run(s: string, digits: bool): (n: nat)
    ensures n <= |s| && forall i :: 0 <= i < n ==> if digits then IsDigit(s[i]) else IsWordChar(s[i])
  {
    if s == "" || !(if digits then IsDigit(s[0]) else IsWordChar(s[0])) then 0 else 1 + Run(s[1..], digits)
  }

  function DigitsValue(s: string): nat
    requires forall i :: 0 <= i < |s| ==> IsDigit(s[i])
  {
    if s == "" then 0
    else
      assert IsDigit(s[|s| - 1]);
      10 * DigitsValue(s[..|s| - 1]) + (s[|s| - 1] - '0') as int
  }

  function SignOf(c: char): Option<UnOp>
  {
    if c == '+' then Some(SPlus) else if c == '-' then Some(SMinus)
    else if c == '~' then Some(Tilde) else if c == '!' then Some(Exclam) else None
  }

  function OneSymbol(c: char): Option<BinOp>
  {
    match c
    case '*' => Some(Mul) case '/' => Some(Div) case '%' => Some(Mod) case '+' => Some(Plus) case '-' => Some(Minus)
    case '<' => Some(Lt) case '>' => Some(Gt) case '&' => Some(BitAnd) case '^' => Some(BitXor) case '|' => Some(BitOr)
    case _ => None
  }

  function TwoSymbols(c: char, d: char): Option<BinOp>
  {
    if c == '<' then (if d == '<' then Some(LShift) else if d == '=' then Some(LtEqu) else None)
    else if c == '>' then (if d == '>' then Some(RShift) else if d == '=' then Some(GtEqu) else None)
    else if c == '=' && d == '=' then Some(Equals)
    else if c == '!' && d == '=' then Some(NotEqual)
    else if c == '&' && d == '&' then Some(LogAnd)
    else if c == '|' && d == '|' then Some(LogOr)
    else None
  }

  datatype Read<T> = Read(value: T, rest: string)

  /** An operator between blanks. */
  function ReadOperator(s: string): (r: Option<Read<BinOp>>)
    ensures r.Some? ==> |r.value.rest| < |s|
  {
    if |s| >= 3 && s[0] == ' ' && s[2] == ' ' && OneSymbol(s[1]).Some? then
      Some(Read(OneSymbol(s[1]).value, s[3..]))
    else if |s| >= 4 && s[0] == ' ' && s[3] == ' ' && TwoSymbols(s[1], s[2]).Some? then
      Some(Read(TwoSymbols(s[1], s[2]).value, s[4..]))
    else None
  }

  /** `s` without the text `t` in front. */
  function Expect(s: string, t: string): (r: Option<string>)
    ensures r.Some? ==> s == t + r.value
  {
    if |t| <= |s| && s[..|t|] == t then Some(s[|t|..]) else None
  }

  /** A leaf or a parenthesised expression. */
  function ReadAtom(s: string): (r: Option<Read<Expr>>)
    ensures r.Some? ==> |r.value.rest| < |s|
    decreases |s|, 0
  {
    if s == "" then None
    else if s[0] == '(' then
      var e := ReadExpr(s[1..]);
      if e.None? then None
      else
        var rest := Expect(e.value.rest, ")");
        if rest.None? then None else Some(Read(Paren(e.value.value), rest.value))
    else if IsDigit(s[0]) then
      var n := Run(s, true);
      Some(Read(Int(DigitsValue(s[..n])), s[n..]))
    else if IsLetter(s[0]) then
      var n := Run(s, false);
      Some(Read(Name(s[..n]), s[n..]))
    else None
  }

  function ReadExpr(s: string): (r: Option<Read<Expr>>)
    ensures r.Some? ==> |r.value.rest| < |s|
    decreases |s|, 1
  {
    if s != "" && SignOf(s[0]).Some? then
      var a := ReadAtom(s[1..]);
      if a.None? then None else Some(Read(Unary(SignOf(s[0]).value, a.value.value), a.value.rest))
    else
      var a := ReadAtom(s);
      if a.None? then None
      else if Expect(a.value.rest, " ? (").Some? then ReadBranches(a.value.value, Expect(a.value.rest, " ? (").value)
      else
        var op := ReadOperator(a.value.rest);
        if op.None? then a
        else
          var b := ReadAtom(op.value.rest);
          if b.None? then None
          else Some(Read(Binary(a.value.value, op.value.value, b.value.value), b.value.rest))
  }

  /** The two branches of a conditional whose condition was read as `cond`. */
  function ReadBranches(cond: Expr, s: string): (r: Option<Read<Expr>>)
    ensures r.Some? ==> |r.value.rest| < |s|
    decreases |s|, 2
  {
    if !cond.Paren? then None
    else
      var yes := ReadExpr(s);
      if yes.None? then None
      else
        var middle := Expect(yes.value.rest, ") : (");
        if middle.None? then None
        else
          var no := ReadExpr(middle.value);
          if no.None? then None
          else
            var rest := Expect(no.value.rest, ")");
            if rest.None? then None
            else Some(Read(Conditional(cond.inner, yes.value.value, no.value.value), rest.value))
  }

  // ---------------------------------------------------------------- the expressions

  predicate IsIdentifier(s: string)
  {
    s != "" && IsLetter(s[0]) && forall i :: 0 <= i < |s| ==> IsWordChar(s[i])
  }

  predicate IsLeaf(e: Expr)
  {
    (e.Int? && e.n >= 0) || (e.Name? && IsIdentifier(e.name))
  }

  /** Leaves are non-negative numbers and identifiers; operands of operators are leaves or
      parenthesised. */
  predicate Shaped(e: Expr)
    decreases e, 1
  {
    match e
    case Conditional(cond, yes, no) => Shaped(cond) && Shaped(yes) && Shaped(no)
    case Binary(left, _, right) => Atomic(left) && Atomic(right)
    case Unary(_, operand) => Atomic(operand)
    case _ => Atomic(e)
  }

  predicate Atomic(e: Expr)
    decreases e, 0
  {
    if e.Paren? then Shaped(e.inner) else IsLeaf(e)
  }

  // ---------------------------------------------------------------- leaves

  lemma {:induction false} DecimalDigits(n: nat)
    ensures Decimal(n) != "" && forall i :: 0 <= i < |Decimal(n)| ==> IsDigit(Decimal(n)[i])
    ensures DigitsValue(Decimal(n)) == n
  {
    if n >= 10 {
      DecimalDigits(n / 10);
      var d := Decimal(n);
      assert d[..|d| - 1] == Decimal(n / 10);
    } else {
      assert Decimal(n)[..0] == "";
    }
  }

  lemma {:induction false} RunStops(a: string, rest: string, digits: bool)
    requires forall i :: 0 <= i < |a| ==> if digits then IsDigit(a[i]) else IsWordChar(a[i])
    requires rest == "" || !IsWordChar(rest[0])
    ensures Run(a + rest, digits) == |a|
  {
    if a == "" {
      assert a + rest == rest;
    } else {
      assert (a + rest)[1..] == a[1..] + rest;
      RunStops(a[1..], rest, digits);
    }
  }

  /** What may follow an atom, and what may follow a whole expression. */
  predicate AfterAtom(rest: string)
  {
    rest == "" || rest[0] == ')' || rest[0] == ' '
  }

  predicate AfterExpr(rest: string)
  {
    rest == "" || rest[0] == ')'
  }

  lemma ReadLeaf(e: Expr, rest: string)
    requires IsLeaf(e) && AfterAtom(rest)
    ensures ReadAtom(Print(e) + rest) == Some(Read(e, rest))
  {
    var t := Print(e);
    var s := t + rest;
    if e.Int? {
      DecimalDigits(e.n);
      RunStops(t, rest, true);
      assert s[0] == t[0] && IsDigit(t[0]);
    } else {
      RunStops(t, rest, false);
      assert s[0] == t[0] && IsLetter(t[0]);
    }
    assert s[..|t|] == t && s[|t|..] == rest;
  }

  lemma ReadSymbol(op: BinOp, rest: string)
    ensures ReadOperator([' '] + Symbol(op) + [' '] + rest) == Some(Read(op, rest))
  {
    var sym := Symbol(op);
    var s := [' '] + sym + [' '] + rest;
    assert s[|sym| + 2..] == rest;
    assert s[1] == sym[0] && s[|sym| + 1] == ' ';
    if |sym| == 2 {
      assert s[2] == sym[1];
      TwoSymbolsOf(op);
    } else {
      OneSymbolOf(op);
    }
  }

  lemma OneSymbolOf(op: BinOp)
    requires |Symbol(op)| == 1
    ensures OneSymbol(Symbol(op)[0]) == Some(op)
  {
  }

  lemma TwoSymbolsOf(op: BinOp)
    requires |Symbol(op)| == 2
    ensures TwoSymbols(Symbol(op)[0], Symbol(op)[1]) == Some(op) && Symbol(op)[1] != ' '
  {
  }

  lemma Expected(t: string, rest: string)
    ensures Expect(t + rest, t) == Some(rest)
  {
    assert (t + rest)[..|t|] == t && (t + rest)[|t|..] == rest;
  }

  // ---------------------------------------------------------------- the round trip

  lemma {:induction false} ReadAtomPrint(e: Expr, rest: string)
    requires Atomic(e) && AfterAtom(rest)
    ensures ReadAtom(Print(e) + rest) == Some(Read(e, rest))
    decreases e, 0
  {
    if e.Paren? {
      Assoc("(" + Print(e.inner), ")", rest);
      Assoc("(", Print(e.inner), ")" + rest);
      ReadCondition(e.inner, Print(e) + rest, rest);
    } else {
      ReadLeaf(e, rest);
    }
  }

  lemma AtomStart(e: Expr, rest: string)
    requires Atomic(e)
    ensures var s := Print(e) + rest; s != "" && SignOf(s[0]).None?
  {
    if e.Int? { DecimalDigits(e.n); }
    assert (Print(e) + rest)[0] == Print(e)[0];
  }

  lemma NoBranch(rest: string)
    requires AfterExpr(rest)
    ensures Expect(rest, " ? (").None? && ReadOperator(rest).None?
  {
  }

  lemma SymbolIsNoBranch(op: BinOp, rest: string)
    ensures Expect([' '] + Symbol(op) + [' '] + rest, " ? (").None?
  {
    var s := [' '] + Symbol(op) + [' '] + rest;
    assert s[1] == Symbol(op)[0] != '?';
    assert |s| >= 4 ==> s[..4][1] == s[1];
  }

  lemma {:induction false} ReadBranchesPrint(e: Expr, rest: string)
    requires e.Conditional? && Shaped(e) && AfterExpr(rest)
    ensures ReadBranches(Paren(e.cond), Print(e.yes) + (") : (" + (Print(e.no) + (")" + rest)))) == Some(Read(e, rest))
    decreases e, 0
  {
    var tail3 := ")" + rest;
    var tail2 := ") : (" + (Print(e.no) + tail3);
    ReadPrint(e.yes, tail2);
    Expected(") : (", Print(e.no) + tail3);
    ReadPrint(e.no, tail3);
    Expected(")", rest);
  }

  /** The text of a conditional, cut where the reader cuts it. */
  lemma ConditionalText(e: Expr, rest: string)
    requires e.Conditional?
    ensures Print(e) + rest
         == "(" + (Print(e.cond) + (")" + (" ? (" + (Print(e.yes) + (") : (" + (Print(e.no) + (")" + rest)))))))
  {
    var (c, y, n) := (Print(e.cond), Print(e.yes), Print(e.no));
    var t1 := "(" + c;
    var t2 := t1 + ") ? (";
    var t3 := t2 + y;
    var t4 := t3 + ") : (";
    var t5 := t4 + n;
    assert Print(e) == t5 + ")";
    Assoc(t5, ")", rest);
    var r5 := ")" + rest;
    Assoc(t4, n, r5);
    Assoc(t3, ") : (", n + r5);
    var r3 := ") : (" + (n + r5);
    Assoc(t2, y, r3);
    Assoc(t1, ") ? (", y + r3);
    Assoc(")", " ? (", y + r3);
    Assoc("(", c, ") ? (" + (y + r3));
  }

  lemma Assoc(a: string, b: string, c: string)
    ensures (a + b) + c == a + (b + c)
  {
  }

  lemma {:induction false} ReadCondition(e: Expr, s: string, tail: string)
    requires Shaped(e) && s == "(" + (Print(e) + (")" + tail))
    ensures ReadAtom(s) == Some(Read(Paren(e), tail))
    decreases e, 3
  {
    ReadPrint(e, ")" + tail);
    assert s[1..] == Print(e) + (")" + tail);
    Expected(")", tail);
  }

  lemma {:induction false} ReadConditional(e: Expr, rest: string)
    requires e.Conditional? && Shaped(e) && AfterExpr(rest)
    ensures ReadExpr(Print(e) + rest) == Some(Read(e, rest))
    decreases e, 1
  {
    hide ReadAtom, ReadBranches, Expect, Print;
    var branches := Print(e.yes) + (") : (" + (Print(e.no) + (")" + rest)));
    var tail := " ? (" + branches;
    var s := Print(e) + rest;
    ConditionalText(e, rest);
    assert s == "(" + (Print(e.cond) + (")" + tail));
    assert s[0] == '(';
    ReadCondition(e.cond, s, tail);
    Expected(" ? (", branches);
    ReadBranchesPrint(e, rest);
  }

  lemma {:induction false} ReadBinary(e: Expr, rest: string)
    requires e.Binary? && Shaped(e) && AfterExpr(rest)
    ensures ReadExpr(Print(e) + rest) == Some(Read(e, rest))
    decreases e, 0
  {
    hide ReadAtom, ReadBranches, ReadOperator, Expect, SignOf, Symbol, Print;
    var right := Print(e.right) + rest;
    var tail := [' '] + Symbol(e.bop) + [' '] + right;
    BinaryText(e.left, e.bop, e.right);
    assert Print(e) + rest == Print(e.left) + tail;
    AtomStart(e.left, tail);
    ReadAtomPrint(e.left, tail);
    SymbolIsNoBranch(e.bop, right);
    ReadSymbol(e.bop, right);
    ReadAtomPrint(e.right, rest);
  }

  lemma {:induction false} ReadUnary(e: Expr, rest: string)
    requires e.Unary? && Shaped(e) && AfterExpr(rest)
    ensures ReadExpr(Print(e) + rest) == Some(Read(e, rest))
    decreases e, 0
  {
    var tail := Print(e.operand) + rest;
    Assoc([Sign(e.uop)], Print(e.operand), rest);
    var s := [Sign(e.uop)] + tail;
    assert Print(e) + rest == s;
    assert s[1..] == tail && s[0] == Sign(e.uop);
    assert SignOf(s[0]) == Some(e.uop);
    ReadAtomPrint(e.operand, rest);
  }

  /** Reading the printed text, whatever closes it, gives the expression back. */
  lemma {:induction false} ReadPrint(e: Expr, rest: string)
    requires Shaped(e) && AfterExpr(rest)
    ensures ReadExpr(Print(e) + rest) == Some(Read(e, rest))
    decreases e, 2
  {
    if e.Conditional? {
      ReadConditional(e, rest);
    } else if e.Binary? {
      ReadBinary(e, rest);
    } else if e.Unary? {
      ReadUnary(e, rest);
    } else {
      AtomStart(e, rest);
      ReadAtomPrint(e, rest);
      NoBranch(rest);
    }
  }

  /** Two such expressions with the same text are the same, and so evaluate alike. */
  lemma PrintInjective(a: Expr, b: Expr, names: map<string, int>)
    requires Shaped(a) && Shaped(b) && Print(a) == Print(b)
    ensures a == b && IntValue(a, names) == IntValue(b, names)
  {
    ReadPrint(a, "");
    ReadPrint(b, "");
    assert Print(a) + "" == Print(a) && Print(b) + "" == Print(b);
  }

  lemma BinaryText(left: Expr, op: BinOp, right: Expr)
    ensures Print(Binary(left, op, right)) == Print(left) + ([' '] + Symbol(op) + [' ']) + Print(right)
  {
    var (x, y, t) := (Print(left), Print(right), Symbol(op));
    assert x + [' '] + t + [' '] + y == x + ([' '] + t + [' ']) + y;
  }

  /** Operands without parentheses: for every two operators, and for a sign before an operator,
      two different trees have one text. */
  lemma OperandsAmbiguous(a: Expr, b: Expr, c: Expr, op: BinOp, op': BinOp, sign: UnOp)
    ensures Print(Binary(Binary(a, op, b), op', c)) == Print(Binary(a, op, Binary(b, op', c)))
    ensures Print(Unary(sign, Binary(a, op, b))) == Print(Binary(Unary(sign, a), op, b))
  {
    var (s, t) := ([' '] + Symbol(op) + [' '], [' '] + Symbol(op') + [' ']);
    var (x, y, z) := (Print(a), Print(b), Print(c));
    BinaryText(a, op, b);
    BinaryText(b, op', c);
    BinaryText(Binary(a, op, b), op', c);
    BinaryText(a, op, Binary(b, op', c));
    BinaryText(Unary(sign, a), op, b);
    SameText([Sign(sign)], x, s, y, t, z);
  }

  lemma SameText(sign: string, x: string, s: string, y: string, t: string, z: string)
    ensures (x + s + y) + t + z == x + s + (y + t + z)
    ensures sign + (x + s + y) == (sign + x) + s + y
  {
  }

  /** Other leaves and negative numbers coincide too. */
  lemma LeavesAmbiguous(n: int)
    requires n > 0
    ensures Print(Null) == Print(Int(0)) == Print(Name(""))
    ensures Print(True) == Print(Name("true")) && Print(False) == Print(Name("false"))
    ensures Print(Int(-n)) == Print(Unary(SMinus, Int(n)))
  {
    assert Decimal(0) == "0";
  }

  /** A condition that compares is evaluated on truth values: `2 > 1` is taken for false. */
  lemma ConditionMisjudged()
    ensures var e := Conditional(Binary(Int(2), Gt, Int(1)), Int(7), Int(8));
      IntValue(e.cond, map[]) == 1 && !BoolValue(e.cond) && IntValue(e, map[]) == 8
  {
  }
}
