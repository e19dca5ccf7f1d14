/** When a conditional is decided as C decides it.  `GetIntValue` asks `GetBoolValue`, which turns
    every operand into a truth value before it applies an operator
    (dice/src/be/BEExpression.cpp). */
module Conditions {
  import opened Expression
  import opened Operators

  // ---------------------------------------------------------------- one operator

  /** The operator does not care whether its operands are reduced to truth values first. */
  ghost predicate Judges(op: BinOp, a: int, b: int)
  {
    Applied(op, a, b) != 0 <==> BinaryValue(op, AsInt(a != 0), AsInt(b != 0)) != 0
  }

  ghost predicate JudgesUnary(op: UnOp, a: int)
  {
    AppliedUnary(op, a) != 0 <==> if op.Exclam? then a == 0 else UnaryValue(op, AsInt(a != 0)) != 0
  }

  predicate Truthful(op: BinOp)
  {
    op.Mul? || op.BitOr? || op.LogAnd? || op.LogOr?
  }

  lemma {:induction false} OrIsZero(a: int, b: int)
    ensures Bitwise((x, y) => x || y, a, b) == 0 <==> a == 0 && b == 0
    decreases (if a < 0 then -a else a) + (if b < 0 then -b else b)
  {
    if !((a == 0 || a == -1) && (b == 0 || b == -1)) {
      OrIsZero(a / 2, b / 2);
    }
  }

  /** Operands on which any other operator is misjudged. */
  function Witness(op: BinOp): (int, int)
  {
    match op
    case Div => (1, 2)
    case Mod => (1, 2)
    case Plus => (1, -1)
    case LShift => (1, -1)
    case RShift => (2, 1)
    case Lt => (1, 2)
    case GtEqu => (1, 2)
    case Equals => (1, 2)
    case NotEqual => (1, 2)
    case BitAnd => (1, 2)
    case BitXor => (1, 2)
    case _ => (2, 1)
  }

  lemma SmallBits(f: (bool, bool) -> bool)
    ensures Bitwise(f, 1, 2) ==
      (if f(false, false) then -4 else 0) + (if f(false, true) then 2 else 0) + (if f(true, false) then 1 else 0)
    ensures Bitwise(f, 1, 1) == (if f(false, false) then -2 else 0) + (if f(true, true) then 1 else 0)
  {
    assert Bitwise(f, 0, 0) == if f(false, false) then -1 else 0;
    assert Bitwise(f, 0, 1) == 2 * Bitwise(f, 0, 0) + (if f(false, true) then 1 else 0);
  }

  lemma WitnessMisjudged(op: BinOp)
    requires !Truthful(op)
    ensures !Judges(op, Witness(op).0, Witness(op).1)
  {
    AppliedIs(op, Witness(op).0, Witness(op).1);
    assert Pow2(1) == 2 && Pow2(0) == 1;
    SmallBits((x, y) => x && y);
    SmallBits((x, y) => x != y);
  }

  lemma ProductIsZero(a: int, b: int)
    ensures a * b == 0 <==> a == 0 || b == 0
  {
  }

  lemma TruthfulJudges(op: BinOp, a: int, b: int)
    requires Truthful(op)
    ensures Judges(op, a, b)
  {
    AppliedIs(op, a, b);
    ProductIsZero(a, b);
    OrIsZero(a, b);
    OrIsZero(AsInt(a != 0), AsInt(b != 0));
  }

  /** Exactly four operators are judged rightly on all operands. */
  lemma OperatorIff(op: BinOp)
    ensures (forall a, b :: Judges(op, a, b)) <==> Truthful(op)
  {
    if Truthful(op) {
      forall a, b ensures Judges(op, a, b) { TruthfulJudges(op, a, b); }
    } else {
      WitnessMisjudged(op);
    }
  }

  /** A left shift is misjudged exactly when a number other than 0 is shifted by a negative distance,
      which C leaves undefined. */
  lemma ShiftIff(a: int, b: int)
    ensures Judges(LShift, a, b) <==> b >= 0 || a == 0
  {
    AppliedIs(LShift, a, b);
    if b >= 0 { ProductIsZero(a, Pow2(b)); }
    ProductIsZero(AsInt(a != 0), Pow2(AsInt(b != 0)));
  }

  /** All unary operators but the complement are judged rightly. */
  lemma UnaryIff(op: UnOp)
    ensures (forall a :: JudgesUnary(op, a)) <==> !op.Tilde?
  {
    forall a ensures AppliedUnary(op, a) == UnaryValue(op, a) { AppliedUnaryIs(op, a); }
    if op.Tilde? {
      assert !JudgesUnary(op, -1);
    }
  }

  // ---------------------------------------------------------------- whole expressions

  /** Built from constants and the given operators and names. */
  predicate Over(e: Expr, ops: set<BinOp>, uops: set<UnOp>, names: set<string>)
  {
    match e
    case Name(name) => name in names
    case Conditional(cond, yes, no) => Over(cond, ops, uops, names) && Over(yes, ops, uops, names) && Over(no, ops, uops, names)
    case Binary(left, op, right) => op in ops && Over(left, ops, uops, names) && Over(right, ops, uops, names)
    case Unary(op, operand) => op in uops && Over(operand, ops, uops, names)
    case Paren(inner) => Over(inner, ops, uops, names)
    case _ => true
  }

  /** Every condition of `e` is so built. */
  predicate ConditionsOver(e: Expr, ops: set<BinOp>, uops: set<UnOp>, names: set<string>)
  {
    match e
    case Conditional(cond, yes, no) =>
      Over(cond, ops, uops, names) && ConditionsOver(yes, ops, uops, names) && ConditionsOver(no, ops, uops, names)
    case Binary(left, _, right) => ConditionsOver(left, ops, uops, names) && ConditionsOver(right, ops, uops, names)
    case Unary(_, operand) => ConditionsOver(operand, ops, uops, names)
    case Paren(inner) => ConditionsOver(inner, ops, uops, names)
    case _ => true
  }

  /** The value C gives: operators mean what module Operators says, and a condition holds when its
      value is not zero. */
  ghost function Meaning(e: Expr, env: map<string, int>): int
  {
    match e
    case Null => 0
    case True => 1
    case False => 0
    case Name(name) => ValueOf(name, env)
    case Int(n) => n
    case Conditional(cond, yes, no) => if Meaning(cond, env) != 0 then Meaning(yes, env) else Meaning(no, env)
    case Binary(left, op, right) => Applied(op, Meaning(left, env), Meaning(right, env))
    case Unary(op, operand) => AppliedUnary(op, Meaning(operand, env))
    case Paren(inner) => Meaning(inner, env)
  }

  function ValueOf(name: string, env: map<string, int>): int
  {
    if name in env then env[name] else 0
  }

  /** What conditions may be built from: the four operators, no complement, names that are 0. */
  predicate Harmless(ops: set<BinOp>, uops: set<UnOp>, names: set<string>, env: map<string, int>)
  {
    && (forall op :: op in ops ==> Truthful(op))
    && Tilde !in uops
    && (forall name :: name in names ==> ValueOf(name, env) == 0)
  }

  ghost predicate JudgedRightly(e: Expr, env: map<string, int>)
  {
    BoolValue(e) <==> Meaning(e, env) != 0
  }

  lemma {:induction false} HarmlessJudged(e: Expr, ops: set<BinOp>, uops: set<UnOp>, names: set<string>, env: map<string, int>)
    requires Harmless(ops, uops, names, env) && Over(e, ops, uops, names)
    ensures JudgedRightly(e, env)
  {
    match e {
      case Name(name) => assert ValueOf(name, env) == 0;
      case Conditional(cond, yes, no) =>
        HarmlessJudged(cond, ops, uops, names, env);
        HarmlessJudged(yes, ops, uops, names, env);
        HarmlessJudged(no, ops, uops, names, env);
      case Binary(left, op, right) =>
        HarmlessJudged(left, ops, uops, names, env);
        HarmlessJudged(right, ops, uops, names, env);
        TruthfulJudges(op, Meaning(left, env), Meaning(right, env));
      case Unary(op, operand) =>
        HarmlessJudged(operand, ops, uops, names, env);
        UnaryIff(op);
        assert JudgesUnary(op, Meaning(operand, env));
      case Paren(inner) => HarmlessJudged(inner, ops, uops, names, env);
      case _ =>
    }
  }

  /** Outside, there is a condition without conditionals in it that is misjudged. */
  lemma Misjudged(ops: set<BinOp>, uops: set<UnOp>, names: set<string>, env: map<string, int>) returns (e: Expr)
    requires !Harmless(ops, uops, names, env)
    ensures Over(e, ops, uops, names) && !JudgedRightly(e, env)
  {
    if op :| op in ops && !Truthful(op) {
      var (a, b) := Witness(op);
      WitnessMisjudged(op);
      e := Binary(Int(a), op, Int(b));
      assert BoolValue(Int(a)) == (a != 0) && BoolValue(Int(b)) == (b != 0);
      assert Meaning(Int(a), env) == a && Meaning(Int(b), env) == b;
    } else if Tilde in uops {
      e := Unary(Tilde, Int(-1));
      AppliedUnaryIs(Tilde, -1);
      assert Meaning(Int(-1), env) == -1 && BoolValue(Int(-1));
    } else {
      var name :| name in names && ValueOf(name, env) != 0;
      e := Name(name);
    }
  }

  /** All conditions of a kind are judged rightly exactly when the kind is harmless. */
  lemma ConditionsJudgedIff(ops: set<BinOp>, uops: set<UnOp>, names: set<string>, env: map<string, int>)
    ensures (forall e :: Over(e, ops, uops, names) ==> JudgedRightly(e, env)) <==> Harmless(ops, uops, names, env)
  {
    if Harmless(ops, uops, names, env) {
      forall e | Over(e, ops, uops, names) ensures JudgedRightly(e, env) {
        HarmlessJudged(e, ops, uops, names, env);
      }
    } else {
      var e := Misjudged(ops, uops, names, env);
    }
  }

  lemma {:induction false} OverHasConditionsOver(e: Expr, ops: set<BinOp>, uops: set<UnOp>, names: set<string>)
    requires Over(e, ops, uops, names)
    ensures ConditionsOver(e, ops, uops, names)
  {
    match e {
      case Conditional(_, yes, no) =>
        OverHasConditionsOver(yes, ops, uops, names);
        OverHasConditionsOver(no, ops, uops, names);
      case Binary(left, _, right) =>
        OverHasConditionsOver(left, ops, uops, names);
        OverHasConditionsOver(right, ops, uops, names);
      case Unary(_, operand) => OverHasConditionsOver(operand, ops, uops, names);
      case Paren(inner) => OverHasConditionsOver(inner, ops, uops, names);
      case _ =>
    }
  }

  lemma {:induction false} HarmlessMeans(e: Expr, ops: set<BinOp>, uops: set<UnOp>, names: set<string>, env: map<string, int>)
    requires Harmless(ops, uops, names, env) && ConditionsOver(e, ops, uops, names)
    ensures IntValue(e, env) == Meaning(e, env)
  {
    match e {
      case Conditional(cond, yes, no) =>
        OverHasConditionsOver(cond, ops, uops, names);
        HarmlessMeans(cond, ops, uops, names, env);
        HarmlessJudged(cond, ops, uops, names, env);
        HarmlessMeans(yes, ops, uops, names, env);
        HarmlessMeans(no, ops, uops, names, env);
      case Binary(left, op, right) =>
        HarmlessMeans(left, ops, uops, names, env);
        HarmlessMeans(right, ops, uops, names, env);
        AppliedIs(op, Meaning(left, env), Meaning(right, env));
      case Unary(op, operand) =>
        HarmlessMeans(operand, ops, uops, names, env);
        AppliedUnaryIs(op, Meaning(operand, env));
      case Paren(inner) => HarmlessMeans(inner, ops, uops, names, env);
      case _ =>
    }
  }

  /** `GetIntValue` gives every expression the value C gives it exactly when the conditions are of
      a harmless kind. */
  lemma ValueIff(ops: set<BinOp>, uops: set<UnOp>, names: set<string>, env: map<string, int>)
    ensures (forall e :: ConditionsOver(e, ops, uops, names) ==> IntValue(e, env) == Meaning(e, env))
       <==> Harmless(ops, uops, names, env)
  {
    if Harmless(ops, uops, names, env) {
      forall e | ConditionsOver(e, ops, uops, names) ensures IntValue(e, env) == Meaning(e, env) {
        HarmlessMeans(e, ops, uops, names, env);
      }
    } else {
      var c := Misjudged(ops, uops, names, env);
      var (one, nil) := (Int(1), Int(0));
      var e := Conditional(c, one, nil);
      assert ConditionsOver(one, ops, uops, names) && ConditionsOver(nil, ops, uops, names);
      assert ConditionsOver(e, ops, uops, names);
      assert IntValue(e, env) == if BoolValue(c) then IntValue(one, env) else IntValue(nil, env);
      assert Meaning(e, env) == if Meaning(c, env) != 0 then Meaning(one, env) else Meaning(nil, env);
      assert IntValue(e, env) != Meaning(e, env);
    }
  }

  // ---------------------------------------------------------------- what is computed in any case

  function Truth(e: Expr): Expr
  {
    Unary(Exclam, Unary(Exclam, e))
  }

  /** The expression with every operand reduced to a truth value and every name to false. */
  function Reduced(e: Expr): Expr
  {
    match e
    case Name(_) => False
    case Conditional(cond, yes, no) => Conditional(Reduced(cond), Reduced(yes), Reduced(no))
    case Binary(left, op, right) => Binary(Truth(Reduced(left)), op, Truth(Reduced(right)))
    case Unary(op, operand) => Unary(op, Truth(Reduced(operand)))
    case Paren(inner) => Paren(Reduced(inner))
    case _ => e
  }

  /** The expression with every condition reduced. */
  function WithReduced(e: Expr): Expr
  {
    match e
    case Conditional(cond, yes, no) => Conditional(Reduced(cond), WithReduced(yes), WithReduced(no))
    case Binary(left, op, right) => Binary(WithReduced(left), op, WithReduced(right))
    case Unary(op, operand) => Unary(op, WithReduced(operand))
    case Paren(inner) => Paren(WithReduced(inner))
    case _ => e
  }

  lemma TruthMeans(e: Expr, env: map<string, int>)
    ensures Meaning(Truth(e), env) == if Meaning(e, env) != 0 then 1 else 0
  {
    AppliedUnaryIs(Exclam, Meaning(e, env));
    AppliedUnaryIs(Exclam, Meaning(Unary(Exclam, e), env));
  }

  /** `GetBoolValue` decides every expression as C decides the reduced one. */
  lemma {:induction false} BoolValueIs(e: Expr, env: map<string, int>)
    ensures BoolValue(e) <==> Meaning(Reduced(e), env) != 0
  {
    match e {
      case Conditional(cond, yes, no) =>
        BoolValueIs(cond, env);
        BoolValueIs(yes, env);
        BoolValueIs(no, env);
      case Binary(left, op, right) =>
        BoolValueIs(left, env);
        BoolValueIs(right, env);
        TruthMeans(Reduced(left), env);
        TruthMeans(Reduced(right), env);
        AppliedIs(op, Meaning(Truth(Reduced(left)), env), Meaning(Truth(Reduced(right)), env));
      case Unary(op, operand) =>
        BoolValueIs(operand, env);
        TruthMeans(Reduced(operand), env);
        AppliedUnaryIs(op, Meaning(Truth(Reduced(operand)), env));
      case Paren(inner) => BoolValueIs(inner, env);
      case _ =>
    }
  }

  /** `GetIntValue` gives every expression the value C gives it with its conditions reduced. */
  lemma {:induction false} IntValueIs(e: Expr, env: map<string, int>)
    ensures IntValue(e, env) == Meaning(WithReduced(e), env)
  {
    match e {
      case Conditional(cond, yes, no) =>
        BoolValueIs(cond, env);
        IntValueIs(yes, env);
        IntValueIs(no, env);
      case Binary(left, op, right) =>
        IntValueIs(left, env);
        IntValueIs(right, env);
        AppliedIs(op, IntValue(left, env), IntValue(right, env));
      case Unary(op, operand) =>
        IntValueIs(operand, env);
        AppliedUnaryIs(op, IntValue(operand, env));
      case Paren(inner) => IntValueIs(inner, env);
      case _ =>
    }
  }
}
