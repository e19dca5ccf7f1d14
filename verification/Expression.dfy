/** Back-end expressions of dice (dice/src/be/BEExpression.cpp): the printer and the evaluators. */
module Expression {

  datatype UnOp = SPlus | SMinus | Tilde | Exclam

  datatype BinOp =
    | Mul | Div | Mod | Plus | Minus | LShift | RShift
    | Lt | Gt | LtEqu | GtEqu | Equals | NotEqual
    | BitAnd | BitXor | BitOr | LogAnd | LogOr

  datatype Expr =
    | Null
    | True
    | False
    | Name(name: string)
    | Int(n: int)
    | Conditional(cond: Expr, yes: Expr, no: Expr)
    | Binary(left: Expr, bop: BinOp, right: Expr)
    | Unary(uop: UnOp, operand: Expr)
    | Paren(inner: Expr)

  // ---------------------------------------------------------------- printing

  function Digit(n: nat): char
    requires n < 10
  {
    '0' + n as char
  }

  function Decimal(n: nat): string
  {
    if n < 10 then [Digit(n)] else Decimal(n / 10) + [Digit(n % 10)]
  }

  function IntText(n: int): string
  {
    if n < 0 then ['-'] + Decimal(-n) else Decimal(n)
  }

  function Symbol(op: BinOp): (r: string)
    ensures 1 <= |r| <= 2
  {
    match op
    case Mul => "*" case Div => "/" case Mod => "%" case Plus => "+" case Minus => "-"
    case LShift => "<<" case RShift => ">>"
    case Lt => "<" case Gt => ">" case LtEqu => "<=" case GtEqu => ">="
    case Equals => "==" case NotEqual => "!="
    case BitAnd => "&" case BitXor => "^" case BitOr => "|" case LogAnd => "&&" case LogOr => "||"
  }

  function Sign(op: UnOp): char
  {
    match op
    case SPlus => '+' case SMinus => '-' case Tilde => '~' case Exclam => '!'
  }

  function Print(e: Expr): string
  {
    match e
    case Null => "0"
    case True => "true"
    case False => "false"
    case Name(name) => if name == "" then "0" else name
    case Int(n) => IntText(n)
    case Conditional(cond, yes, no) => "(" + Print(cond) + ") ? (" + Print(yes) + ") : (" + Print(no) + ")"
    case Binary(left, op, right) => Print(left) + [' '] + Symbol(op) + [' '] + Print(right)
    case Unary(op, operand) => [Sign(op)] + Print(operand)
    case Paren(inner) => "(" + Print(inner) + ")"
  }

  /** `WriteToStr`, which appends to the string it is given. */
  method WriteToStr(e: Expr, str: string) returns (out: string)
    ensures out == str + Print(e)
    decreases e, 1
  {
    match e {
      case Null => out := str + "0";
      case True => out := str + "true";
      case False => out := str + "false";
      case Name(name) => out := str + (if name == "" then "0" else name);
      case Int(n) => out := str + IntText(n);
      case Conditional(_, _, _) => out := WriteConditionalToStr(e, str);
      case Binary(_, _, _) => out := WriteBinaryToStr(e, str);
      case Unary(op, operand) =>
        out := WriteToStr(operand, str + [Sign(op)]);
      case Paren(inner) =>
        out := WriteToStr(inner, str + "(");
        out := out + ")";
    }
  }

  /** `WriteConditionalToStr`. */
  method WriteConditionalToStr(e: Expr, str: string) returns (out: string)
    requires e.Conditional?
    ensures out == str + Print(e)
    decreases e, 0
  {
    out := WriteToStr(e.cond, str + "(");
    ghost var t1 := "(" + Print(e.cond);
    assert out == str + t1;
    out := WriteToStr(e.yes, out + ") ? (");
    ghost var t2 := t1 + ") ? (" + Print(e.yes);
    assert out == str + t2;
    out := WriteToStr(e.no, out + ") : (");
    ghost var t3 := t2 + ") : (" + Print(e.no);
    assert out == str + t3;
    out := out + ")";
    assert Print(e) == t3 + ")";
  }

  /** `WriteBinaryToStr`. */
  method WriteBinaryToStr(e: Expr, str: string) returns (out: string)
    requires e.Binary?
    ensures out == str + Print(e)
    decreases e, 0
  {
    out := WriteToStr(e.left, str);
    out := WriteToStr(e.right, out + [' '] + Symbol(e.bop) + [' ']);
  }

  // ---------------------------------------------------------------- evaluating

  /** Two's complement, bit by bit; `f` combines the bits. */
  function Bitwise(f: (bool, bool) -> bool, a: int, b: int): int
    decreases (if a < 0 then -a else a) + (if b < 0 then -b else b)
  {
    if (a == 0 || a == -1) && (b == 0 || b == -1) then
      if f(a == -1, b == -1) then -1 else 0
    else
      2 * Bitwise(f, a / 2, b / 2) + (if f(a % 2 == 1, b % 2 == 1) then 1 else 0)
  }

  function Pow2(n: nat): (r: int)
    ensures r > 0
  {
    if n == 0 then 1 else 2 * Pow2(n - 1)
  }

  /** Division and remainder of C, which truncate toward zero. */
  function Quot(a: int, b: int): int
    requires b != 0
  {
    var q := (if a < 0 then -a else a) / (if b < 0 then -b else b);
    if (a < 0) == (b < 0) then q else -q
  }

  function Rem(a: int, b: int): int
    requires b != 0
  {
    a - Quot(a, b) * b
  }

  function AsInt(b: bool): int
  {
    if b then 1 else 0
  }

  function BinaryValue(op: BinOp, a: int, b: int): int
  {
    match op
    case Mul => a * b
    case Div => if b != 0 then Quot(a, b) else 0
    case Mod => if b != 0 then Rem(a, b) else 0
    case Plus => a + b
    case Minus => a - b
    case LShift => if b >= 0 then a * Pow2(b) else 0
    case RShift => if b >= 0 then a / Pow2(b) else 0
    case Lt => AsInt(a < b)
    case Gt => AsInt(a > b)
    case LtEqu => AsInt(a <= b)
    case GtEqu => AsInt(a >= b)
    case Equals => AsInt(a == b)
    case NotEqual => AsInt(a != b)
    case BitAnd => Bitwise((x, y) => x && y, a, b)
    case BitXor => Bitwise((x, y) => x != y, a, b)
    case BitOr => Bitwise((x, y) => x || y, a, b)
    case LogAnd => AsInt(a != 0 && b != 0)
    case LogOr => AsInt(a != 0 || b != 0)
  }

  function UnaryValue(op: UnOp, a: int): int
  {
    match op
    case SPlus => a
    case SMinus => -a
    case Tilde => -a - 1
    case Exclam => AsInt(a == 0)
  }

  /** `GetIntValue`; `names` gives the constants and enumerators, any other name counts as 0. */
  function IntValue(e: Expr, names: map<string, int>): int
  {
    match e
    case Null => 0
    case True => 1
    case False => 0
    case Name(name) => if name in names then names[name] else 0
    case Int(n) => n
    case Conditional(cond, yes, no) => if BoolValue(cond) then IntValue(yes, names) else IntValue(no, names)
    case Binary(left, op, right) => BinaryValue(op, IntValue(left, names), IntValue(right, names))
    case Unary(op, operand) => UnaryValue(op, IntValue(operand, names))
    case Paren(inner) => IntValue(inner, names)
  }

  /** `GetBoolValue`: operands count as truth values before the operator is applied. */
  function BoolValue(e: Expr): bool
  {
    match e
    case Null => false
    case True => true
    case False => false
    case Name(_) => false
    case Int(n) => n != 0
    case Conditional(cond, yes, no) => if BoolValue(cond) then BoolValue(yes) else BoolValue(no)
    case Binary(left, op, right) => BinaryValue(op, AsInt(BoolValue(left)), AsInt(BoolValue(right))) != 0
    case Unary(op, operand) =>
      if op.Exclam? then !BoolValue(operand) else UnaryValue(op, AsInt(BoolValue(operand))) != 0
    case Paren(inner) => BoolValue(inner)
  }
}
