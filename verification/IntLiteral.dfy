/** Integer constants of the #if evaluator (parse_int_literal_ex). */
module IntLiteral {
  import opened Bits
  import opened IntMax

  /** The value of a digit after tolower, or 16 for a character that is none. */
  function DigitOf(c: char): (d: nat)
    ensures d <= 16
  {
    if '0' <= c <= '9' then c as int - '0' as int
    else if 'a' <= c <= 'f' then 10 + (c as int - 'a' as int)
    else if 'A' <= c <= 'F' then 10 + (c as int - 'A' as int)
    else 16
  }

  /** The base that a prefix selects, and the length of that prefix. */
  function Prefix(sp: string): (r: (nat, nat))
    ensures r.0 in {2, 8, 10, 16} && r.1 <= |sp|
  {
    if |sp| > 0 && sp[0] == '0' then
      if |sp| > 1 && (sp[1] == 'x' || sp[1] == 'X') then (16, 2)
      else if |sp| > 1 && (sp[1] == 'b' || sp[1] == 'B') then (2, 2)
      else (8, 1)
    else (10, 0)
  }

  /** The longest run of digits below the base, from i on. */
  function RunEnd(base: nat, sp: string, i: nat): (e: nat)
    requires i <= |sp|
    ensures i <= e <= |sp|
    ensures e == |sp| || DigitOf(sp[e]) >= base
    ensures forall j :: i <= j < e ==> DigitOf(sp[j]) < base
    decreases |sp| - i
  {
    if i < |sp| && DigitOf(sp[i]) < base then RunEnd(base, sp, i + 1) else i
  }

  /** The number that a digit string denotes, of any length. */
  function Number(base: nat, digits: string): nat {
    if digits == [] then 0 else Number(base, digits[..|digits| - 1]) * base + DigitOf(digits[|digits| - 1])
  }

  predicate IsSuffixChar(c: char) { c in {'u', 'U', 'l', 'L'} }

  /** Does the run of suffix letters from i on hold a u? */
  predicate SuffixHasU(sp: string, i: nat)
    decreases |sp| - i
  {
    i < |sp| && IsSuffixChar(sp[i]) && (sp[i] == 'u' || sp[i] == 'U' || SuffixHasU(sp, i + 1))
  }

  /** The digits of a constant, as a number. */
  function Magnitude(sp: string): nat {
    var (base, start) := Prefix(sp);
    Number(base, sp[start..RunEnd(base, sp, start)])
  }

  predicate IsUnsigned(sp: string) {
    var (base, start) := Prefix(sp);
    SuffixHasU(sp, RunEnd(base, sp, start)) || (base != 10 && Wrap(Magnitude(sp)) < 0)
  }

  /** The meaning of an integer constant: its number modulo 2^64, with its signedness. */
  function Literal(sp: string): Value { Value(Wrap(Magnitude(sp)), IsUnsigned(sp)) }

  predicate Overflows(sp: string) { Magnitude(sp) >= TWO64 }

  /** One digit of the scan: the wrapping update, with a test before and a test after it. */
  function AddDigit(base: nat, val: U64, overflow: bool, digit: nat): (U64, bool)
    requires base in {2, 8, 10, 16}
  {
    var newVal := Low(val * base + digit);
    (newVal, overflow || val > (TWO64 - 1) / base || newVal < val)
  }

  lemma LimitOf(base: nat)
    requires base in {2, 8, 10, 16}
    ensures var limit := (TWO64 - 1) / base; limit * base < TWO64 <= (limit + 1) * base
  {}

  lemma LowStep(base: nat, n: nat, digit: nat)
    ensures Low(Low(n) * base + digit) == Low(n * base + digit)
  {
    var (k, v) := (n / TWO64, Low(n));
    assert n * base + digit == (v * base + digit) + (k * base) * TWO64 by {
      assert n == v + k * TWO64;
      assert (v + k * TWO64) * base == v * base + (k * base) * TWO64;
    }
    LowShift(v * base + digit, k * base);
  }

  lemma Grows(base: nat, n: nat, digit: nat)
    requires base >= 1
    ensures n * base + digit >= n
  {
    assert n * (base - 1) >= 0;
  }

  lemma PastLimit(base: nat, limit: nat, n: nat, digit: nat)
    requires limit * base < TWO64 <= (limit + 1) * base
    ensures n > limit ==> n * base + digit >= TWO64
    ensures n <= limit ==> n * base < TWO64
  {
    if n > limit {
      MulMono(limit + 1, n, base);
    } else {
      MulMono(n, limit, base);
    }
  }

  lemma MulMono(a: nat, b: nat, base: nat)
    requires a <= b
    ensures a * base <= b * base
  {
    assert b * base == a * base + (b - a) * base;
  }

  /** The two tests together find every overflow and nothing else. */
  lemma AddDigitExact(base: nat, n: nat, digit: nat)
    requires base in {2, 8, 10, 16} && digit < base
    ensures AddDigit(base, Low(n), n >= TWO64, digit) == (Low(n * base + digit), n * base + digit >= TWO64)
  {
    LowStep(base, n, digit);
    if n >= TWO64 {
      Grows(base, n, digit);
    } else {
      InRangeStep(base, n, digit);
    }
    hide Low;
  }

  lemma InRangeStep(base: nat, n: nat, digit: nat)
    requires base in {2, 8, 10, 16} && digit < base && n < TWO64
    ensures Low(n) == n
    ensures n * base + digit >= TWO64 <==> n > (TWO64 - 1) / base || Low(n * base + digit) < n
  {
    LimitOf(base);
    PastLimit(base, (TWO64 - 1) / base, n, digit);
    if n <= (TWO64 - 1) / base {
      SmallStep(base, n, digit);
    }
  }

  lemma SmallStep(base: nat, n: nat, digit: nat)
    requires base >= 2 && digit < base <= 16 && n < TWO64 && n * base < TWO64
    ensures Low(n * base + digit) < n <==> n * base + digit >= TWO64
  {
    assert n * (base - 2) >= 0;
    var m := n * base + digit;
    if m >= TWO64 {
      assert n * (16 - base) >= 0;
      assert Low(m) == m - TWO64;
    }
  }

  lemma NumberStep(base: nat, sp: string, start: nat, p: nat)
    requires start <= p < |sp|
    ensures Number(base, sp[start..p + 1]) == Number(base, sp[start..p]) * base + DigitOf(sp[p])
  {
    assert sp[start..p + 1][..p - start] == sp[start..p];
  }

  /** What the scanner knows after the digits up to p. */
  ghost predicate Scanned(base: nat, digits: string, val: U64, overflow: bool) {
    val == Low(Number(base, digits)) && overflow == (Number(base, digits) >= TWO64)
  }

  lemma ScanStep(base: nat, sp: string, start: nat, p: nat, val: U64, overflow: bool)
    requires base in {2, 8, 10, 16} && start <= p < |sp| && DigitOf(sp[p]) < base
    requires Scanned(base, sp[start..p], val, overflow)
    ensures var (val', overflow') := AddDigit(base, val, overflow, DigitOf(sp[p]));
            Scanned(base, sp[start..p + 1], val', overflow')
  {
    NumberStep(base, sp, start, p);
    AddDigitExact(base, Number(base, sp[start..p]), DigitOf(sp[p]));
  }

  method ScanDigits(base: nat, sp: string, start: nat) returns (p: nat, val: U64, overflow: bool)
    requires base in {2, 8, 10, 16} && start <= |sp|
    ensures p == RunEnd(base, sp, start)
    ensures Scanned(base, sp[start..p], val, overflow)
  {
    p, val, overflow := start, 0, false;
    while p < |sp| && DigitOf(sp[p]) < base
      invariant start <= p <= |sp|
      invariant RunEnd(base, sp, p) == RunEnd(base, sp, start)
      invariant Scanned(base, sp[start..p], val, overflow)
    {
      ScanStep(base, sp, start, p, val, overflow);
      var next := AddDigit(base, val, overflow, DigitOf(sp[p]));
      val, overflow := next.0, next.1;
      p := p + 1;
    }
  }

  /** The whole constant: its result is the constant's number modulo 2^64, and it reports
      overflow exactly when that number does not fit, however long the digit string is. */
  method ParseIntLiteralEx(sp: string) returns (v: Value, overflow: bool)
    ensures v == Literal(sp)
    ensures overflow <==> Overflows(sp)
  {
    var (base, start) := Prefix(sp);
    var p, val, ovf := ScanDigits(base, sp, start);
    overflow := ovf;
    var isUnsigned := false;
    ghost var end := p;
    while p < |sp| && IsSuffixChar(sp[p])
      invariant p <= |sp|
      invariant SuffixHasU(sp, end) <==> isUnsigned || SuffixHasU(sp, p)
    {
      if sp[p] == 'u' || sp[p] == 'U' { isUnsigned := true; }
      p := p + 1;
    }
    if !isUnsigned && base != 10 && val >= TWO63 { isUnsigned := true; }
    v := Value(ToI(val), isUnsigned);
  }
}
