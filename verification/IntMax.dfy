/** The values of the #if evaluator and its binary operators: first as the evaluator computes
    them on 64-bit patterns, then as exact arithmetic, and the two proved equal. */
module IntMax {
  import opened Bits

  /** A 64-bit pattern with the flag that says how to read it. */
  datatype Value = Value(v: I64, uns: bool)

  datatype BinOp =
    | Mul | Div | Rem | Add | Sub | Shl | Shr | Lt | Gt | Le | Ge | Eq | Ne | BitAnd | BitXor | BitOr

  /** What one operator step does: the new value, the number of errors raised, and whether the
      operand loop is left early. */
  datatype Step = Step(val: Value, errs: nat, stop: bool)

  function Signed(x: I64): Value { Value(x, false) }

  function Bool(b: bool): Value { Signed(if b then 1 else 0) }

  function UsualConv(a: Value, b: Value): (Value, Value) {
    var u := a.uns || b.uns;
    (a.(uns := u), b.(uns := u))
  }

  /** C's integer division, which truncates toward zero. */
  function TruncDiv(a: int, b: int): int
    requires b != 0
  {
    if a >= 0 then a / b else -(-a / b)
  }

  function TruncRem(a: int, b: int): int
    requires b != 0
  {
    a - TruncDiv(a, b) * b
  }

  function And64(a: I64, b: I64): I64 {
    BitOpBound(AND, 64, ToU(a), ToU(b)); Pow2Of64();
    ToI(BitOp(AND, 64, ToU(a), ToU(b)))
  }

  function Or64(a: I64, b: I64): I64 {
    BitOpBound(OR, 64, ToU(a), ToU(b)); Pow2Of64();
    ToI(BitOp(OR, 64, ToU(a), ToU(b)))
  }

  function Xor64(a: I64, b: I64): I64 {
    BitOpBound(XOR, 64, ToU(a), ToU(b)); Pow2Of64();
    ToI(BitOp(XOR, 64, ToU(a), ToU(b)))
  }

  function ShiftAmount(r: Value): nat { ToU(And64(r.v, 63)) }

  // ---- the evaluator's own sequences of machine operations ----

  /** Multiplication modulo 2^64, checked by dividing the product back. The C expression p / a
      is undefined for INTMAX_MIN / -1; here it keeps its low 64 bits. */
  function CodeMul(v0: Value, r0: Value): Step {
    var (v, r) := UsualConv(v0, r0);
    var p := ToI(Low(ToU(v.v) * ToU(r.v)));
    if v.uns then Step(v.(v := p), 0, false)
    else Step(v.(v := p), if v.v != 0 && Wrap(TruncDiv(p, v.v)) != r.v then 1 else 0, false)
  }

  function CodeDiv(v0: Value, r0: Value): Step {
    var (v, r) := UsualConv(v0, r0);
    if r.v == 0 then Step(v.(v := 0), 1, true)
    else if v.uns then Step(v.(v := Wrap(ToU(v.v) / ToU(r.v))), 0, false)
    else if v.v == -TWO63 && r.v == -1 then Step(v, 1, false)
    else Step(v.(v := Wrap(TruncDiv(v.v, r.v))), 0, false)
  }

  function CodeRem(v0: Value, r0: Value): Step {
    var (v, r) := UsualConv(v0, r0);
    if r.v == 0 then Step(v.(v := 0), 1, true)
    else if v.uns then Step(v.(v := Wrap(ToU(v.v) % ToU(r.v))), 0, false)
    else if v.v == -TWO63 && r.v == -1 then Step(v, 1, false)
    else Step(v.(v := Wrap(TruncRem(v.v, r.v))), 0, false)
  }

  /** The sum modulo 2^64, with the overflow test on sign bits. */
  function CodeAdd(v0: Value, r0: Value): Step {
    var (v, r) := UsualConv(v0, r0);
    var s := ToI(Low(ToU(v.v) + ToU(r.v)));
    if v.uns then Step(v.(v := s), 0, false)
    else Step(v.(v := s), if And64(Xor64(v.v, s), Xor64(r.v, s)) < 0 then 1 else 0, false)
  }

  function CodeSub(v0: Value, r0: Value): Step {
    var (v, r) := UsualConv(v0, r0);
    var s := ToI(Low(ToU(v.v) - ToU(r.v)));
    if v.uns then Step(v.(v := s), 0, false)
    else Step(v.(v := s), if And64(Xor64(v.v, r.v), Xor64(v.v, s)) < 0 then 1 else 0, false)
  }

  /** A shift takes the type of its left operand. */
  function CodeShl(v: Value, r: Value): Step {
    var amt := ShiftAmount(r);
    var shifted := ToI(Low(ToU(v.v) * Pow2(amt)));
    if v.uns then Step(v.(v := shifted), 0, false)
    else if v.v < 0 then Step(v, 1, false)
    else Step(v.(v := shifted), if amt > 0 && shifted < 0 then 1 else 0, false)
  }

  /** A signed right shift keeps the sign. */
  function CodeShr(v: Value, r: Value): Step {
    var amt := ShiftAmount(r);
    Step(v.(v := Wrap(if v.uns then ToU(v.v) / Pow2(amt) else v.v / Pow2(amt))), 0, false)
  }

  function CodeRelat(op: BinOp, v0: Value, r0: Value): Step {
    var (v, r) := UsualConv(v0, r0);
    var a: int := if v.uns then ToU(v.v) else v.v;
    var b: int := if v.uns then ToU(r.v) else r.v;
    Step(Bool(match op case Lt => a < b case Gt => a > b case Le => a <= b case _ => a >= b), 0, false)
  }

  /** Equality looks at the bit patterns only. */
  function CodeEqual(op: BinOp, v: Value, r: Value): Step {
    Step(Bool((v.v == r.v) == (op == Eq)), 0, false)
  }

  function CodeBitwise(op: BinOp, v0: Value, r0: Value): Step {
    var (v, r) := UsualConv(v0, r0);
    Step(v.(v := match op case BitAnd => And64(v.v, r.v) case BitXor => Xor64(v.v, r.v) case _ => Or64(v.v, r.v)), 0, false)
  }

  function CodeOp(op: BinOp, v: Value, r: Value): Step {
    match op
    case Mul => CodeMul(v, r)
    case Div => CodeDiv(v, r)
    case Rem => CodeRem(v, r)
    case Add => CodeAdd(v, r)
    case Sub => CodeSub(v, r)
    case Shl => CodeShl(v, r)
    case Shr => CodeShr(v, r)
    case Lt | Gt | Le | Ge => CodeRelat(op, v, r)
    case Eq | Ne => CodeEqual(op, v, r)
    case BitAnd | BitXor | BitOr => CodeBitwise(op, v, r)
  }

  // ---- exact arithmetic ----

  /** The number that a value stands for. */
  function Num(x: Value): int { if x.uns then ToU(x.v) else x.v }

  predicate Fits(n: int) { -TWO63 <= n < TWO63 }

  /** An exact result stored back: modulo 2^64 when unsigned, an error when it leaves the
      intmax range when signed. */
  function Store(n: int, uns: bool): Step {
    Step(Value(Wrap(n), uns), if uns || Fits(n) then 0 else 1, false)
  }

  /** May a 64-bit operand be shifted by r? */
  predicate InWidth(r: Value) { 0 <= Num(r) < 64 }

  /** The amount of a shift; one out of width is an error, and goes on with its remainder. */
  function Amount(r: Value): nat { if InWidth(r) then Num(r) else ToU(r.v) % 64 }

  /** The number that an operand becomes when both are converted to their common type. */
  function Converted(x: Value, uns: bool): int { if uns then Num(x) % 0x1_0000_0000_0000_0000 else Num(x) }

  /** The meaning of a binary operator, over the integers. */
  function MathOp(op: BinOp, v: Value, r: Value): Step {
    var u := v.uns || r.uns;
    var (a, b) := (Converted(v, u), Converted(r, u));
    match op
    case Mul => Store(a * b, u)
    case Add => Store(a + b, u)
    case Sub => Store(a - b, u)
    case Div => if b == 0 then Step(Value(0, u), 1, true) else Store(TruncDiv(a, b), u)
    case Rem =>
      if b == 0 then Step(Value(0, u), 1, true)
      else if !u && !Fits(TruncDiv(a, b)) then Step(Value(Wrap(a), u), 1, false)
      else Store(TruncRem(a, b), u)
    case Shl =>
      if !v.uns && v.v < 0 then Step(v, 1, false)
      else var s := Store(Num(v) * Pow2(Amount(r)), v.uns); Step(s.val, if InWidth(r) then s.errs else 1, false)
    case Shr => Step(Value(Wrap(Num(v) / Pow2(Amount(r))), v.uns), if InWidth(r) then 0 else 1, false)
    case Lt => Step(Value(if a < b then 1 else 0, false), 0, false)
    case Gt => Step(Value(if a > b then 1 else 0, false), 0, false)
    case Le => Step(Value(if a <= b then 1 else 0, false), 0, false)
    case Ge => Step(Value(if a >= b then 1 else 0, false), 0, false)
    case Eq => Step(Value(if a == b then 1 else 0, false), 0, false)
    case Ne => Step(Value(if a != b then 1 else 0, false), 0, false)
    case BitAnd => Step(Value(And64(v.v, r.v), u), 0, false)
    case BitXor => Step(Value(Xor64(v.v, r.v), u), 0, false)
    case BitOr => Step(Value(Or64(v.v, r.v), u), 0, false)
  }

  /** The one pair on which the multiplication check divides INTMAX_MIN by -1. */
  predicate MulTrap(op: BinOp, v: Value, r: Value) {
    op == Mul && !v.uns && !r.uns && v.v == -1 && r.v == -TWO63
  }

  /** A shift whose error goes unnoticed: by an amount out of width, or signed, to the left and out of
      the range; only a left shift that puts a 1 where the sign goes is noticed. */
  predicate ShiftTrap(op: BinOp, v: Value, r: Value) {
    || (op == Shr && !InWidth(r))
    || (op == Shl && v.uns && !InWidth(r))
    || (op == Shl && !v.uns && v.v >= 0
        && var n := v.v * Pow2(Amount(r)); (!InWidth(r) || !Fits(n)) && Wrap(n) >= 0)
  }

  /** The operands on which an operator's error check goes wrong. */
  predicate Trap(op: BinOp, v: Value, r: Value) { MulTrap(op, v, r) || ShiftTrap(op, v, r) }

  // ---- why the two agree ----

  lemma SignOfXor(a: I64, b: I64)
    ensures Xor64(a, b) < 0 <==> (a < 0) != (b < 0)
  {
    Pow2Of64();
    BitOpTop(XOR, 64, ToU(a), ToU(b));
  }

  lemma SignOfAnd(a: I64, b: I64)
    ensures And64(a, b) < 0 <==> a < 0 && b < 0
  {
    Pow2Of64();
    BitOpTop(AND, 64, ToU(a), ToU(b));
  }

  /** The bit-wise operators, bit by bit. */
  lemma BitwiseExact(a: I64, b: I64, k: nat)
    requires k < 64
    ensures Bit(ToU(And64(a, b)), k) == (Bit(ToU(a), k) && Bit(ToU(b), k))
    ensures Bit(ToU(Or64(a, b)), k) == (Bit(ToU(a), k) || Bit(ToU(b), k))
    ensures Bit(ToU(Xor64(a, b)), k) == (Bit(ToU(a), k) != Bit(ToU(b), k))
  {
    hide Bit;
    BitOpBit(AND, 64, ToU(a), ToU(b), k);
    BitOpBit(OR, 64, ToU(a), ToU(b), k);
    BitOpBit(XOR, 64, ToU(a), ToU(b), k);
    BitOpBound(AND, 64, ToU(a), ToU(b));
    BitOpBound(OR, 64, ToU(a), ToU(b));
    BitOpBound(XOR, 64, ToU(a), ToU(b));
    Pow2Of64();
  }

  lemma WrapNear(n: int)
    requires -TWO64 <= n < TWO64
    ensures Wrap(n) == if n < -TWO63 then n + TWO64 else if n < TWO63 then n else n - TWO64
  {}

  lemma LowShift(n: int, k: int)
    ensures Low(n + k * TWO64) == Low(n)
  {
    ModUnique(n + k * TWO64, TWO64, n / TWO64 + k, n % TWO64);
  }

  lemma ModuloSum(x: I64, y: I64)
    ensures Low(ToU(x) + ToU(y)) == Low(x + y) && Low(ToU(x) - ToU(y)) == Low(x - y)
  {}

  /** The sign test on a sum raises the error exactly when the mathematical sum leaves the range. */
  lemma AddOverflowExact(a: I64, b: I64)
    ensures var s := ToI(Low(ToU(a) + ToU(b)));
            s == Wrap(a + b) && (And64(Xor64(a, s), Xor64(b, s)) < 0 <==> !Fits(a + b))
  {
    var s := ToI(Low(ToU(a) + ToU(b)));
    assert s == Wrap(a + b) by { ModuloSum(a, b); }
    WrapNear(a + b);
    SignOfXor(a, s); SignOfXor(b, s);
    SignOfAnd(Xor64(a, s), Xor64(b, s));
  }

  /** The sign test on a difference is exact as well. */
  lemma SubOverflowExact(a: I64, b: I64)
    ensures var s := ToI(Low(ToU(a) - ToU(b)));
            s == Wrap(a - b) && (And64(Xor64(a, b), Xor64(a, s)) < 0 <==> !Fits(a - b))
  {
    var s := ToI(Low(ToU(a) - ToU(b)));
    assert s == Wrap(a - b) by { ModuloSum(a, b); }
    WrapNear(a - b);
    SignOfXor(a, b); SignOfXor(a, s);
    SignOfAnd(Xor64(a, b), Xor64(a, s));
  }

  lemma MulModulo(x: I64, y: I64)
    ensures Low(ToU(x) * ToU(y)) == Low(x * y)
  {
    var (i, j) := (if x < 0 then 1 else 0, if y < 0 then 1 else 0);
    assert (x + i * TWO64) * (y + j * TWO64) == x * y + (i * y + j * x + i * j * TWO64) * TWO64;
    LowShift(x * y, i * y + j * x + i * j * TWO64);
  }

  lemma TruncDivBound(a: int, b: int)
    requires b != 0
    ensures a == TruncDiv(a, b) * b + TruncRem(a, b)
    ensures Abs(TruncRem(a, b)) < Abs(b) && (a >= 0 ==> TruncRem(a, b) >= 0) && (a <= 0 ==> TruncRem(a, b) <= 0)
  {
    if a < 0 {
      assert -a == (-a / b) * b + (-a) % b;
    }
  }

  lemma TruncDivOfProduct(a: int, b: int)
    requires a != 0
    ensures TruncDiv(a * b, a) == b
  {
    var q := TruncDiv(a * b, a);
    TruncDivBound(a * b, a);
    assert (b - q) * a == TruncRem(a * b, a);
    if b != q {
      MultipleIsFar(b - q, a);
    }
  }

  /** Dividing the wrapped product back detects overflow on every pair but (-1, INTMAX_MIN). */
  lemma MulOverflowExact(a: I64, b: I64)
    requires a != 0
    ensures var p := ToI(Low(ToU(a) * ToU(b)));
            p == Wrap(a * b) && ((Wrap(TruncDiv(p, a)) != b <==> !Fits(a * b)) <==> !(a == -1 && b == -TWO63))
  {
    MulModulo(a, b);
    var n := a * b;
    if Fits(n) {
      QuotientHits(a, b, n);
    } else if a == -1 {
      assert n == TWO63;
    } else {
      QuotientMisses(a, b, n);
    }
  }

  lemma QuotientHits(a: I64, b: I64, n: int)
    requires a != 0 && n == a * b && Fits(n)
    ensures Wrap(TruncDiv(Wrap(n), a)) == b
  {
    WrapInRange(n);
    TruncDivOfProduct(a, b);
    WrapInRange(b);
  }

  lemma QuotientMisses(a: I64, b: I64, n: int)
    requires a != 0 && a != -1 && n == a * b && !Fits(n)
    ensures Wrap(TruncDiv(Wrap(n), a)) != b
  {
    var p := Wrap(n);
    var (q, rem) := (TruncDiv(p, a), TruncRem(p, a));
    TruncDivBound(p, a);
    WrapGap(n);
    NotTheQuotient(a, b, n, p, q, rem);
    QuotientBound(p, a, q, rem);
    WrapInRange(q);
  }

  lemma WrapGap(n: int)
    requires !Fits(n)
    ensures Abs(n - Wrap(n)) >= TWO64
  {
    assert n == (n / TWO64) * TWO64 + n % TWO64;
  }

  lemma QuotientBound(p: I64, a: int, q: int, rem: int)
    requires a != 0 && a != -1 && p == q * a + rem && Abs(rem) < Abs(a)
    requires a == 1 ==> q == p
    ensures Fits(q)
  {
    if a != 1 && q != 0 {
      var n := q * a;
      AbsMul(q, a);
      HalfBound(Abs(q), Abs(a), Abs(n), TWO63);
    }
  }

  lemma HalfBound(x: int, y: int, n: int, m: int)
    requires x >= 1 && y >= 2 && n == x * y <= m + y - 1
    ensures 2 * x <= m + 1
  {
    assert (x - 1) * (y - 2) == n - 2 * x - y + 2;
  }

  lemma NotTheQuotient(a: I64, b: int, n: int, p: int, q: int, rem: int)
    requires n == a * b && p == q * a + rem && Abs(rem) < Abs(a) && Abs(n - p) >= TWO64
    ensures q != b
  {
    assert q == b ==> n - p == -rem;
  }

  lemma ShiftAmountIs(r: Value)
    ensures ShiftAmount(r) == ToU(r.v) % 64
  {
    Pow2Of64();
    AndMask(64, 6, ToU(r.v));
  }

  lemma QuotientRange(p: I64, a: I64)
    requires a != 0
    ensures Fits(TruncDiv(p, a)) <==> !(p == -TWO63 && a == -1)
  {
    TruncDivBound(p, a);
    if a != -1 {
      QuotientBound(p, a, TruncDiv(p, a), TruncRem(p, a));
    }
  }

  lemma ConvertedIs(v: Value, r: Value)
    ensures var ((x, y), u) := (UsualConv(v, r), v.uns || r.uns);
            x == Value(v.v, u) && y == Value(r.v, u) && Num(x) == Converted(v, u) && Num(y) == Converted(r, u)
            && Wrap(Num(x)) == v.v
  {}

  lemma DivExact(v: Value, r: Value)
    ensures CodeDiv(v, r) == MathOp(Div, v, r)
  {
    ConvertedIs(v, r);
    var (x, y) := UsualConv(v, r);
    if y.v != 0 && !x.uns {
      QuotientRange(x.v, y.v);
    }
  }

  lemma RemExact(v: Value, r: Value)
    ensures CodeRem(v, r) == MathOp(Rem, v, r)
  {
    ConvertedIs(v, r);
    var (x, y) := UsualConv(v, r);
    if y.v != 0 {
      if x.uns {
        TruncRemIsMod(ToU(x.v), ToU(y.v));
      } else {
        QuotientRange(x.v, y.v);
        RemainderFits(x.v, y.v);
      }
    }
  }

  lemma TruncRemIsMod(a: nat, b: nat)
    requires b > 0
    ensures TruncRem(a, b) == a % b
  {}

  lemma RemainderFits(p: I64, a: I64)
    requires a != 0
    ensures Fits(TruncRem(p, a))
  {
    TruncDivBound(p, a);
  }

  lemma MulExact(v: Value, r: Value)
    ensures CodeMul(v, r) == MathOp(Mul, v, r) <==> !MulTrap(Mul, v, r)
    ensures CodeMul(v, r).val == MathOp(Mul, v, r).val
  {
    ConvertedIs(v, r);
    var (x, y) := UsualConv(v, r);
    MulModulo(x.v, y.v);
    if !x.uns && x.v != 0 {
      MulOverflowExact(x.v, y.v);
    }
  }

  lemma AddExact(v: Value, r: Value)
    ensures CodeAdd(v, r) == MathOp(Add, v, r)
  {
    ConvertedIs(v, r);
    var (x, y) := UsualConv(v, r);
    if !x.uns {
      AddOverflowExact(x.v, y.v);
    }
  }

  lemma SubExact(v: Value, r: Value)
    ensures CodeSub(v, r) == MathOp(Sub, v, r)
  {
    ConvertedIs(v, r);
    var (x, y) := UsualConv(v, r);
    if !x.uns {
      SubOverflowExact(x.v, y.v);
    }
  }

  lemma AmountIs(r: Value)
    ensures ShiftAmount(r) == Amount(r) == ToU(r.v) % 64
  {
    hide ShiftAmount, And64;
    ShiftAmountIs(r);
  }

  lemma ShiftExact(v: Value, r: Value)
    ensures CodeShl(v, r) == MathOp(Shl, v, r) <==> !ShiftTrap(Shl, v, r)
    ensures CodeShl(v, r).val == MathOp(Shl, v, r).val && !CodeShl(v, r).stop
    ensures CodeShr(v, r) == MathOp(Shr, v, r) <==> !ShiftTrap(Shr, v, r)
    ensures CodeShr(v, r).val == MathOp(Shr, v, r).val && !CodeShr(v, r).stop
  {
    AmountIs(r);
    var amt := Amount(r);
    ShlExact(v, amt);
    if v.v >= 0 {
      HighBit(v.v * Pow2(amt));
    }
  }

  lemma CompareExact(op: BinOp, v: Value, r: Value)
    requires op in {Lt, Gt, Le, Ge, Eq, Ne}
    ensures CodeOp(op, v, r) == MathOp(op, v, r)
  {
    ConvertedIs(v, r);
  }

  /** The evaluator's operators are exact arithmetic, except for the error check of a
      multiplication on (-1, INTMAX_MIN) and those of shifts; the values are right even there. */
  lemma OperatorsExact(op: BinOp, v: Value, r: Value)
    ensures CodeOp(op, v, r) == MathOp(op, v, r) <==> !Trap(op, v, r)
    ensures CodeOp(op, v, r).val == MathOp(op, v, r).val && CodeOp(op, v, r).stop == MathOp(op, v, r).stop
  {
    match op {
      case Mul => MulExact(v, r);
      case Div => DivExact(v, r);
      case Rem => RemExact(v, r);
      case Add => AddExact(v, r);
      case Sub => SubExact(v, r);
      case Shl => ShiftExact(v, r);
      case Shr => ShiftExact(v, r);
      case Lt => CompareExact(op, v, r);
      case Gt => CompareExact(op, v, r);
      case Le => CompareExact(op, v, r);
      case Ge => CompareExact(op, v, r);
      case Eq => CompareExact(op, v, r);
      case Ne => CompareExact(op, v, r);
      case BitAnd => case BitXor => case BitOr =>
    }
  }

  lemma ShlExact(v: Value, amt: nat)
    ensures ToI(Low(ToU(v.v) * Pow2(amt))) == Wrap(Num(v) * Pow2(amt))
    ensures amt == 0 && !v.uns ==> Num(v) * Pow2(amt) == v.v == Wrap(v.v)
    ensures v.v < 0 && !v.uns <==> Num(v) * Pow2(amt) < 0
  {
    ScaleWrapped(v.v, Pow2(amt));
  }

  lemma ScaleWrapped(x: I64, p: nat)
    requires p > 0
    ensures Low(ToU(x) * p) == Low(x * p)
    ensures x < 0 <==> x * p < 0
    ensures ToU(x) * p >= 0
  {
    if x < 0 {
      assert x * p <= 0 - p;
      assert (x + TWO64) * p == x * p + p * TWO64;
      LowShift(x * p, p);
    }
  }

  /** The left-shift check looks at one bit of the product, so it misses an overflow exactly
      when the product leaves the range while the bit that lands on the sign is 0. */
  lemma ShlOverflowMissed(a: I64, r: Value)
    requires a >= 0
    ensures var n := a * Pow2(ToU(r.v) % 64);
            (CodeShl(Signed(a), r).errs == 1 <==> !Fits(n)) <==> (Fits(n) || (n / TWO63) % 2 == 1)
  {
    ShiftAmountIs(r);
    var amt := ToU(r.v) % 64;
    ShlExact(Signed(a), amt);
    HighBit(a * Pow2(amt));
  }

  lemma HighBit(n: nat)
    ensures Wrap(n) < 0 <==> (n / TWO63) % 2 == 1
    ensures Fits(n) ==> Wrap(n) == n
  {
    var (q, r) := (n / TWO64, n % TWO64);
    assert n == q * TWO64 + r;
    if r >= TWO63 {
      ModUnique(n, TWO63, 2 * q + 1, r - TWO63);
    } else {
      ModUnique(n, TWO63, 2 * q, r);
    }
  }

  /** 2 << 63 is such a case: its value 2^64 is out of range, and no error is raised. */
  lemma ShlOverflowMissedExample()
    ensures !Fits(2 * Pow2(63)) && CodeShl(Signed(2), Signed(63)).errs == 0
  {
    Pow2Of64();
    var n := 2 * Pow2(63);
    assert n / TWO63 == 2;
    assert ToU(63) % 64 == 63;
    ShlOverflowMissed(2, Signed(63));
  }

  /** `1 << 64` and `1 >> -64` are shifts by 0. */
  lemma AmountExample(r: Value)
    requires r in {Signed(64), Signed(-64)}
    ensures CodeShl(Signed(1), r) == CodeShr(Signed(1), r) == Step(Signed(1), 0, false)
    ensures ShiftTrap(Shl, Signed(1), r) && ShiftTrap(Shr, Signed(1), r)
  {
    hide Pow2, And64, ShiftAmount;
    AmountIs(r);
    assert !InWidth(r) && Amount(r) == 0;
    Unshifted();
  }

  lemma Unshifted()
    ensures Pow2(0) == 1
  {}
}
