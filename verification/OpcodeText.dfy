/** The opcode constants that `AddOpcodesToFile` writes (dice/src/be/BEClass.cpp): the printed
    expressions denote the opcodes the dispatcher is built on. */
module OpcodeText {
  import opened Expression
  import opened ExpressionLaws
  import opened Dispatch

  const SHIFT_NAME: string := "DICE_IID_BITS"
  const MASK_NAME: string := "DICE_FID_MASK"

  /** The constant of an interface: `(number << DICE_IID_BITS)`. */
  function BaseConstant(number: int): Expr
  {
    Paren(Binary(Int(number), LShift, Name(SHIFT_NAME)))
  }

  /** The constant of an operation: `(base + (id & DICE_FID_MASK))`. */
  function OperationConstant(base: string, id: int): Expr
  {
    Paren(Binary(Name(base), Plus, Paren(Binary(Int(id), BitAnd, Name(MASK_NAME)))))
  }

  /** The names as dice.h and the base constant define them. */
  function Definitions(l: Layout, base: string, number: int): map<string, int>
  {
    var defs := map[SHIFT_NAME := if l.Wide? then 20 else 12, MASK_NAME := Unit(l) - 1];
    defs[base := IntValue(BaseConstant(number), defs)]
  }

  // ---------------------------------------------------------------- masking

  lemma {:induction false} MaskIsRemainder(n: int, k: nat)
    ensures Bitwise((x, y) => x && y, n, Pow2(k) - 1) == n % Pow2(k)
    decreases k
  {
    if k == 0 {
      AndZero(n);
    } else {
      var m := Pow2(k) - 1;
      assert m == 2 * (Pow2(k - 1) - 1) + 1;
      assert m / 2 == Pow2(k - 1) - 1 && m % 2 == 1;
      MaskIsRemainder(n / 2, k - 1);
      HalfRemainder(n, Pow2(k - 1));
    }
  }

  lemma {:induction false} AndZero(n: int)
    ensures Bitwise((x, y) => x && y, n, 0) == 0
    decreases if n < 0 then -n else n
  {
    if n != 0 && n != -1 {
      AndZero(n / 2);
    }
  }

  lemma HalfRemainder(n: int, p: int)
    requires p > 0
    ensures n % (2 * p) == 2 * ((n / 2) % p) + n % 2
  {
    var q, r := (n / 2) / p, (n / 2) % p;
    assert n == 2 * (q * p + r) + n % 2;
    assert n == q * (2 * p) + (2 * r + n % 2);
    DivisionUnique(n, 2 * p, q, 2 * r + n % 2);
  }

  lemma {:induction false} MulAtLeast(k: int, d: int)
    requires k >= 1 && d > 0
    ensures k * d >= d
    decreases k
  {
    if k > 1 {
      MulAtLeast(k - 1, d);
      assert k * d == (k - 1) * d + d;
    }
  }

  lemma DivisionUnique(n: int, d: int, q: int, r: int)
    requires d > 0 && 0 <= r < d && n == q * d + r
    ensures n % d == r
  {
    var q', r' := n / d, n % d;
    var k := q - q';
    assert k * d == r' - r by {
      assert n == q' * d + r';
      assert k * d == q * d - q' * d;
    }
    if k >= 1 { MulAtLeast(k, d); }
    if k <= -1 {
      assert (-k) * d == -(k * d);
      MulAtLeast(-k, d);
    }
  }

  lemma Units(l: Layout)
    ensures Pow2(if l.Wide? then 20 else 12) == Unit(l)
  {
    assert Pow2(4) == 16;
    assert Pow2(8) == 256;
    assert Pow2(12) == 0x1000;
    assert Pow2(16) == 0x1_0000;
    assert Pow2(20) == 0x10_0000;
  }

  // ---------------------------------------------------------------- the constants

  /** The written constants have the shape whose text can be read back, and their value is the
      opcode, for any name of the base constant other than the two macros. */
  lemma ConstantIsOpcode(l: Layout, base: string, number: int, id: int)
    requires InWord(l, number, id) && IsIdentifier(base) && base != SHIFT_NAME && base != MASK_NAME
    ensures Shaped(BaseConstant(number)) && Shaped(OperationConstant(base, id))
    ensures IntValue(OperationConstant(base, id), Definitions(l, base, number)) == Opcode(l, number, id)
  {
    hide Opcode, Shaped, Bitwise, Print;
    var shift: nat := if l.Wide? then 20 else 12;
    var defs := Definitions(l, base, number);
    Units(l);
    MaskIsRemainder(id, shift);
    ConstantsShaped(base, number, id);
    var inner := Binary(Int(number), LShift, Name(SHIFT_NAME));
    var defs0 := map[SHIFT_NAME := if l.Wide? then 20 else 12, MASK_NAME := Unit(l) - 1];
    assert IntValue(inner, defs0) == number * Unit(l);
    assert defs[base] == number * Unit(l) && defs[MASK_NAME] == Unit(l) - 1;
    var masked := Binary(Int(id), BitAnd, Name(MASK_NAME));
    assert IntValue(masked, defs) == id % Unit(l);
    assert IntValue(Paren(masked), defs) == id % Unit(l);
    assert IntValue(Binary(Name(base), Plus, Paren(masked)), defs) == number * Unit(l) + id % Unit(l);
    OpcodeHolds(l, number, id);
  }

  lemma ConstantsShaped(base: string, number: int, id: int)
    requires IsIdentifier(base) && number >= 0 && id >= 0
    ensures Shaped(BaseConstant(number)) && Shaped(OperationConstant(base, id))
  {
    assert IsIdentifier(SHIFT_NAME) && IsIdentifier(MASK_NAME);
    assert Atomic(Name(SHIFT_NAME)) && Atomic(Name(MASK_NAME)) && Atomic(Int(number)) && Atomic(Int(id));
    assert Shaped(Binary(Int(number), LShift, Name(SHIFT_NAME)));
    var masked := Binary(Int(id), BitAnd, Name(MASK_NAME));
    assert Shaped(masked) && Atomic(Paren(masked));
    assert Shaped(Binary(Name(base), Plus, Paren(masked)));
  }

  /** Equal texts of two operations of one server name the same opcode. */
  lemma ConstantTextDetermines(base: string, id: int, base': string, id': int)
    requires IsIdentifier(base) && IsIdentifier(base') && id >= 0 && id' >= 0
    requires Print(OperationConstant(base, id)) == Print(OperationConstant(base', id'))
    ensures base == base' && id == id'
  {
    ConstantsShaped(base, 0, id);
    ConstantsShaped(base', 0, id');
    PrintInjective(OperationConstant(base, id), OperationConstant(base', id'), map[]);
  }
}
