/** Fixed-width integers written out over `int`: the 64-bit two's-complement views that the
    preprocessor's intmax_t and uintmax_t give of one bit pattern, and bit-wise operations. */
module Bits {
  const TWO63: int := 0x8000_0000_0000_0000
  const TWO64: int := 0x1_0000_0000_0000_0000

  /** intmax_t */
  type I64 = x: int | -TWO63 <= x < TWO63
  /** uintmax_t */
  type U64 = x: int | 0 <= x < TWO64

  /** The cast (uintmax_t)x. */
  function ToU(x: I64): U64 { if x < 0 then x + TWO64 else x }

  /** The cast (intmax_t)u. */
  function ToI(u: U64): I64 { if u < TWO63 then u else u - TWO64 }

  /** The low 64 bits of an exact result. */
  function Low(n: int): U64 { n % TWO64 }

  /** The intmax_t that an exact result becomes when only its low 64 bits are kept. */
  function Wrap(n: int): I64 { ToI(Low(n)) }

  /** Each view of a word is the number of its range that differs by a multiple of 2^64. */
  lemma WordViews(n: int, x: I64, u: U64)
    ensures -0x8000_0000_0000_0000 <= Wrap(n) < 0x8000_0000_0000_0000 && (n - Wrap(n)) % 0x1_0000_0000_0000_0000 == 0
    ensures 0 <= ToU(x) < 0x1_0000_0000_0000_0000 && (ToU(x) - x) % 0x1_0000_0000_0000_0000 == 0
    ensures -0x8000_0000_0000_0000 <= ToI(u) < 0x8000_0000_0000_0000 && (ToI(u) - u) % 0x1_0000_0000_0000_0000 == 0
  {}

  lemma WrapInRange(x: I64)
    ensures Wrap(x) == x
  {}

  function Pow2(n: nat): (p: nat)
    ensures p > 0
  {
    if n == 0 then 1 else 2 * Pow2(n - 1)
  }

  /** The n-bit word whose bits are f of the corresponding bits of a and b. */
  function BitOp(f: (bool, bool) -> bool, n: nat, a: nat, b: nat): nat {
    if n == 0 then 0 else 2 * BitOp(f, n - 1, a / 2, b / 2) + (if f(a % 2 == 1, b % 2 == 1) then 1 else 0)
  }

  const AND := (x: bool, y: bool) => x && y
  const OR := (x: bool, y: bool) => x || y
  const XOR := (x: bool, y: bool) => x != y

  predicate Bit(a: nat, k: nat) { (a / Pow2(k)) % 2 == 1 }

  /** Every bit of a bit-wise result is f of the bits of the operands at its place. */
  lemma {:induction false} BitOpBit(f: (bool, bool) -> bool, n: nat, a: nat, b: nat, k: nat)
    requires k < n
    ensures Bit(BitOp(f, n, a, b), k) == f(Bit(a, k), Bit(b, k))
  {
    if k > 0 {
      BitOpBit(f, n - 1, a / 2, b / 2, k - 1);
      BitOfHalf(a, k);
      BitOfHalf(b, k);
      BitOfHalf(BitOp(f, n, a, b), k);
    }
  }

  lemma BitOfHalf(a: nat, k: nat)
    requires k > 0
    ensures Bit(a, k) == Bit(a / 2, k - 1)
  {
    var p := Pow2(k - 1);
    var (q, r) := (a / 2 / p, a / 2 % p);
    assert a == q * (2 * p) + (2 * r + a % 2) by { assert a / 2 == q * p + r; }
    ModUnique(a, 2 * p, q, 2 * r + a % 2);
  }

  /** The leading bit of a bit-wise result depends on the leading bits of the operands alone. */
  lemma {:induction false} BitOpTop(f: (bool, bool) -> bool, n: nat, a: nat, b: nat)
    requires n > 0 && a < Pow2(n) && b < Pow2(n)
    ensures BitOp(f, n, a, b) < Pow2(n)
    ensures BitOp(f, n, a, b) >= Pow2(n - 1) <==> f(a >= Pow2(n - 1), b >= Pow2(n - 1))
  {
    if n == 1 {
      assert BitOp(f, 0, a / 2, b / 2) == 0;
    } else {
      BitOpTop(f, n - 1, a / 2, b / 2);
    }
  }

  lemma {:induction false} BitOpBound(f: (bool, bool) -> bool, n: nat, a: nat, b: nat)
    ensures BitOp(f, n, a, b) < Pow2(n)
  {
    if n > 0 {
      BitOpBound(f, n - 1, a / 2, b / 2);
    }
  }

  /** Masking with 2^m - 1 is the remainder modulo 2^m. */
  lemma {:induction false} AndMask(n: nat, m: nat, a: nat)
    requires m <= n
    ensures BitOp(AND, n, a, Pow2(m) - 1) == a % Pow2(m)
  {
    if m == 0 {
      AndZero(n, a);
    } else {
      AndMask(n - 1, m - 1, a / 2);
      assert (Pow2(m) - 1) / 2 == Pow2(m - 1) - 1;
      ModHalf(a, Pow2(m - 1));
    }
  }

  lemma {:induction false} AndZero(n: nat, a: nat)
    ensures BitOp(AND, n, a, 0) == 0
  {
    if n > 0 {
      AndZero(n - 1, a / 2);
    }
  }

  lemma ModHalf(a: nat, p: nat)
    requires p > 0
    ensures a % (2 * p) == 2 * ((a / 2) % p) + a % 2
  {
    var q, r := (a / 2) / p, (a / 2) % p;
    assert a / 2 == q * p + r;
    assert a == q * (2 * p) + (2 * r + a % 2);
    ModUnique(a, 2 * p, q, 2 * r + a % 2);
  }

  function Abs(x: int): int { if x < 0 then -x else x }

  lemma AbsMul(x: int, y: int)
    ensures Abs(x * y) == Abs(x) * Abs(y)
  {
    assert x * y == (-x) * (-y) == -((-x) * y) == -(x * (-y));
  }

  lemma MultipleIsFar(e: int, m: int)
    requires e != 0
    ensures Abs(e * m) >= Abs(m)
  {
    AbsMul(e, m);
    assert (Abs(e) - 1) * Abs(m) >= 0;
  }

  /** Quotient and remainder are unique. */
  lemma ModUnique(a: int, m: nat, q: int, r: nat)
    requires r < m && a == q * m + r
    ensures a % m == r && a / m == q
  {
    assert a == (a / m) * m + a % m;
    var e := a / m - q;
    assert e * m == r - a % m;
    if e != 0 {
      MultipleIsFar(e, m);
    }
  }

  lemma {:induction false} Pow2Add(a: nat, b: nat)
    ensures Pow2(a + b) == Pow2(a) * Pow2(b)
  {
    if a > 0 {
      Pow2Add(a - 1, b);
    }
  }

  lemma Pow2Of64()
    ensures Pow2(63) == TWO63 && Pow2(64) == TWO64 && Pow2(6) == 64
  {
    assert Pow2(6) == 64;
    assert Pow2(7) == 128;
    Pow2Add(7, 7);
    Pow2Add(14, 7);
    Pow2Add(21, 21);
    Pow2Add(42, 21);
  }
}
