/** What the operators of C mean on integers that do not wrap around (sections 6.5.3 to 6.5.14 of ISO
    C11), and that `GetIntValue` computes it (dice/src/be/BEExpression.cpp). */
module Operators {
  import opened Expression

  // ---------------------------------------------------------------- bits and divisions

  /** Bit `i` of the two's complement of `n`. */
  function Bit(n: int, i: nat): bool
    decreases i
  {
    if i == 0 then n % 2 == 1 else Bit(n / 2, i - 1)
  }

  predicate Combined(f: (bool, bool) -> bool, a: int, b: int, v: int, i: nat)
  {
    Bit(v, i) == f(Bit(a, i), Bit(b, i))
  }

  /** Every bit of `v` is `f` of those of `a` and `b`. */
  ghost predicate Combines(f: (bool, bool) -> bool, a: int, b: int, v: int)
  {
    forall i: nat :: Combined(f, a, b, v, i)
  }

  predicate Opposite(a: int, v: int, i: nat)
  {
    Bit(v, i) != Bit(a, i)
  }

  predicate Agree(a: int, b: int, i: nat)
  {
    Bit(a, i) == Bit(b, i)
  }

  function Doubled(n: int, times: nat): int
  {
    if times == 0 then n else 2 * Doubled(n, times - 1)
  }

  function Size(n: int): nat
  {
    if n < 0 then -n else n
  }

  /** The remainder is smaller than the divisor and has the sign of the dividend. */
  predicate Divides(a: int, b: int, q: int, r: int)
  {
    a == q * b + r && Size(r) < Size(b) && (r > 0 ==> a > 0) && (r < 0 ==> a < 0)
  }

  // ---------------------------------------------------------------- the meanings

  /** `v` is `a op b`.  A division by zero and a shift by a negative distance, which C leaves
      undefined, are taken to be 0. */
  ghost predicate Denotes(op: BinOp, a: int, b: int, v: int)
  {
    match op
    case Mul => v == a * b
    case Div => if b == 0 then v == 0 else exists r :: Divides(a, b, v, r)
    case Mod => if b == 0 then v == 0 else exists q :: Divides(a, b, q, v)
    case Plus => v - a == b
    case Minus => v + b == a
    case LShift => if b < 0 then v == 0 else v == Doubled(a, b)
    case RShift => if b < 0 then v == 0 else Doubled(v, b) <= a < Doubled(v + 1, b)
    case Lt => Tells(v, a < b)
    case Gt => Tells(v, b < a)
    case LtEqu => Tells(v, !(b < a))
    case GtEqu => Tells(v, !(a < b))
    case Equals => Tells(v, a == b)
    case NotEqual => Tells(v, a != b)
    case BitAnd => Combines((x, y) => x && y, a, b, v)
    case BitXor => Combines((x, y) => x != y, a, b, v)
    case BitOr => Combines((x, y) => x || y, a, b, v)
    case LogAnd => Tells(v, !(a == 0 || b == 0))
    case LogOr => Tells(v, !(a == 0 && b == 0))
  }

  /** 1 for true and 0 for false. */
  predicate Tells(v: int, holds: bool)
  {
    (holds ==> v == 1) && (!holds ==> v == 0)
  }

  /** `v` is `op a`. */
  ghost predicate DenotesUnary(op: UnOp, a: int, v: int)
  {
    match op
    case SPlus => v == a
    case SMinus => v + a == 0
    case Tilde => forall i: nat :: Opposite(a, v, i)
    case Exclam => Tells(v, a == 0)
  }

  // ---------------------------------------------------------------- bit by bit

  lemma {:induction false} SameBits(a: int, b: int)
    requires forall i: nat :: Agree(a, b, i)
    ensures a == b
    decreases Size(a) + Size(b)
  {
    assert Agree(a, b, 0);
    if !((a == 0 || a == -1) && (b == 0 || b == -1)) {
      forall i: nat ensures Agree(a / 2, b / 2, i) { assert Agree(a, b, i + 1); }
      SameBits(a / 2, b / 2);
    }
  }

  lemma {:induction false} ConstantBits(i: nat)
    ensures !Bit(0, i) && Bit(-1, i)
  {
    if i > 0 { ConstantBits(i - 1); }
  }

  lemma BitOfHalf(v: int, low: bool, i: nat)
    ensures Bit(2 * v + (if low then 1 else 0), i) == if i == 0 then low else Bit(v, i - 1)
  {
    assert (2 * v + (if low then 1 else 0)) / 2 == v;
  }

  lemma {:induction false} BitwiseBits(f: (bool, bool) -> bool, a: int, b: int, i: nat)
    ensures Bit(Bitwise(f, a, b), i) == f(Bit(a, i), Bit(b, i))
    decreases Size(a) + Size(b)
  {
    if (a == 0 || a == -1) && (b == 0 || b == -1) {
      ConstantBits(i);
    } else {
      var v := Bitwise(f, a / 2, b / 2);
      var low := f(a % 2 == 1, b % 2 == 1);
      assert Bitwise(f, a, b) == 2 * v + (if low then 1 else 0);
      if i > 0 { BitwiseBits(f, a / 2, b / 2, i - 1); }
      hide Bitwise;
      BitOfHalf(v, low, i);
    }
  }

  lemma {:induction false} ComplementBits(a: int, i: nat)
    ensures Bit(-a - 1, i) == !Bit(a, i)
    decreases i
  {
    if i > 0 {
      assert (-a - 1) / 2 == -(a / 2) - 1;
      ComplementBits(a / 2, i - 1);
    }
  }

  lemma BitwiseIff(f: (bool, bool) -> bool, a: int, b: int, v: int)
    ensures Combines(f, a, b, v) <==> v == Bitwise(f, a, b)
  {
    hide Bit, Bitwise;
    var w := Bitwise(f, a, b);
    forall i: nat ensures Combined(f, a, b, w, i) { BitwiseBits(f, a, b, i); }
    if Combines(f, a, b, v) {
      forall i: nat ensures Agree(v, w, i) { assert Combined(f, a, b, v, i) && Combined(f, a, b, w, i); }
      SameBits(v, w);
    }
  }

  // ---------------------------------------------------------------- division and shifts

  lemma {:induction false} MulSize(k: int, b: int)
    requires k != 0
    ensures Size(k * b) >= Size(b)
    decreases Size(k)
  {
    if k > 1 {
      MulSize(k - 1, b);
      assert k * b == (k - 1) * b + b;
      SameSign(k - 1, b);
    } else if k < -1 {
      MulSize(k + 1, b);
      assert k * b == (k + 1) * b - b;
      SameSign(-(k + 1), b);
      assert -(k + 1) * b == -((k + 1) * b);
    }
  }

  lemma SameSign(k: int, b: int)
    requires k > 0
    ensures b >= 0 ==> k * b >= 0
    ensures b <= 0 ==> k * b <= 0
  {
  }

  lemma Distribute(q: int, q': int, b: int)
    ensures (q - q') * b == q * b - q' * b
  {
  }

  /** There is only one such division. */
  lemma DivisionUnique(a: int, b: int, q: int, r: int, q': int, r': int)
    requires Divides(a, b, q, r) && Divides(a, b, q', r')
    ensures q == q' && r == r'
  {
    var k := q - q';
    Distribute(q, q', b);
    assert k * b == r' - r;
    if k != 0 { MulSize(k, b); }
  }

  lemma QuotDivides(a: int, b: int)
    requires b != 0
    ensures Divides(a, b, Quot(a, b), Rem(a, b))
  {
    hide Quot;
    var (m, n) := (Size(a), Size(b));
    Euclid(m, n);
    QuotTimes(a, b, m / n);
    var (p, r) := (m / n * n, m % n);
    assert m == p + r;
    RemainderIs(a, b, p, r);
  }

  lemma Euclid(m: nat, n: nat)
    requires n > 0
    ensures m == m / n * n + m % n && 0 <= m % n < n
  {
  }

  lemma RemainderIs(a: int, b: int, p: int, r: int)
    requires b != 0 && Size(a) == p + r && 0 <= r < Size(b) && p >= 0
    requires Quot(a, b) * b == if a < 0 then -p else p
    ensures Divides(a, b, Quot(a, b), Rem(a, b))
  {
    hide Quot;
    assert Rem(a, b) == if a < 0 then -r else r;
  }

  lemma QuotTimes(a: int, b: int, q: int)
    requires b != 0 && q == Size(a) / Size(b)
    ensures Quot(a, b) * b == if a < 0 then -(q * Size(b)) else q * Size(b)
  {
    Negated(q, b);
    if b < 0 {
      assert q * Size(b) == -(q * b);
    } else {
      assert q * Size(b) == q * b;
    }
    if (a < 0) == (b < 0) {
      assert Quot(a, b) == q;
    } else {
      assert Quot(a, b) == -q;
    }
  }

  lemma Negated(q: int, b: int)
    ensures (-q) * b == -(q * b) && q * (-b) == -(q * b)
  {
  }

  lemma {:induction false} DoubledIs(n: int, times: nat)
    ensures Doubled(n, times) == n * Pow2(times)
  {
    if times > 0 {
      DoubledIs(n, times - 1);
      assert n * (2 * Pow2(times - 1)) == 2 * (n * Pow2(times - 1));
    }
  }

  lemma FloorIff(a: int, p: int, v: int)
    requires p > 0
    ensures v * p <= a < (v + 1) * p <==> v == a / p
  {
    var (q, r) := (a / p, a % p);
    assert a == q * p + r;
    assert (q + 1) * p == q * p + p && (v + 1) * p == v * p + p;
    if v < q { MulSize(q - v, p); assert (q - v) * p == q * p - v * p; SameSign(q - v, p); }
    if v > q { MulSize(v - q, p); assert (v - q) * p == v * p - q * p; SameSign(v - q, p); }
  }

  // ---------------------------------------------------------------- the operators

  /** `GetIntValueBinary` computes what the operator denotes, and nothing else does. */
  lemma DenotesIff(op: BinOp, a: int, b: int, v: int)
    ensures Denotes(op, a, b, v) <==> v == BinaryValue(op, a, b)
  {
    hide Bitwise, Combines, Doubled, Pow2, Quot, Rem, Divides;
    match op {
      case Div => DivisionIff(a, b, v);
      case Mod => DivisionIff(a, b, v);
      case LShift => ShiftsIff(a, b, v);
      case RShift => ShiftsIff(a, b, v);
      case BitAnd => BitwiseIff((x, y) => x && y, a, b, v);
      case BitXor => BitwiseIff((x, y) => x != y, a, b, v);
      case BitOr => BitwiseIff((x, y) => x || y, a, b, v);
      case _ => ComparesIff(op, a, b, v);
    }
  }

  lemma ShiftsIff(a: int, b: int, v: int)
    ensures Denotes(LShift, a, b, v) <==> v == BinaryValue(LShift, a, b)
    ensures Denotes(RShift, a, b, v) <==> v == BinaryValue(RShift, a, b)
  {
    if b >= 0 {
      DoubledIs(a, b);
      DoubledIs(v, b);
      DoubledIs(v + 1, b);
      FloorIff(a, Pow2(b), v);
    }
  }

  lemma ComparesIff(op: BinOp, a: int, b: int, v: int)
    requires !op.Div? && !op.Mod? && !op.LShift? && !op.RShift? && !op.BitAnd? && !op.BitXor? && !op.BitOr?
    ensures Denotes(op, a, b, v) <==> v == BinaryValue(op, a, b)
  {
  }

  lemma DivisionIff(a: int, b: int, v: int)
    ensures b != 0 ==> ((exists r :: Divides(a, b, v, r)) <==> v == Quot(a, b))
    ensures b != 0 ==> ((exists q :: Divides(a, b, q, v)) <==> v == Rem(a, b))
  {
    hide Divides, Quot, Rem;
    if b != 0 {
      var (q, r) := (Quot(a, b), Rem(a, b));
      QuotDivides(a, b);
      if r' :| Divides(a, b, v, r') { DivisionUnique(a, b, v, r', q, r); }
      if q' :| Divides(a, b, q', v) { DivisionUnique(a, b, q', v, q, r); }
    }
  }

  /** `GetIntValueUnary` likewise. */
  lemma DenotesUnaryIff(op: UnOp, a: int, v: int)
    ensures DenotesUnary(op, a, v) <==> v == UnaryValue(op, a)
  {
    if op.Tilde? {
      hide Bit;
      var w := -a - 1;
      forall i: nat ensures Opposite(a, w, i) { ComplementBits(a, i); }
      if DenotesUnary(op, a, v) {
        forall i: nat ensures Agree(v, w, i) { assert Opposite(a, v, i) && Opposite(a, w, i); }
        SameBits(v, w);
      }
    }
  }

  /** The value that the operator denotes. */
  ghost function Applied(op: BinOp, a: int, b: int): (v: int)
    ensures Denotes(op, a, b, v)
  {
    DenotesIff(op, a, b, BinaryValue(op, a, b));
    var v :| Denotes(op, a, b, v);
    v
  }

  ghost function AppliedUnary(op: UnOp, a: int): (v: int)
    ensures DenotesUnary(op, a, v)
  {
    DenotesUnaryIff(op, a, UnaryValue(op, a));
    var v :| DenotesUnary(op, a, v);
    v
  }

  lemma AppliedIs(op: BinOp, a: int, b: int)
    ensures Applied(op, a, b) == BinaryValue(op, a, b)
  {
    DenotesIff(op, a, b, Applied(op, a, b));
  }

  lemma AppliedUnaryIs(op: UnOp, a: int)
    ensures AppliedUnary(op, a) == UnaryValue(op, a)
  {
    DenotesUnaryIff(op, a, AppliedUnary(op, a));
  }
}
