/** Integer constants as C11 section 6.4.4.1 defines them, and what the scanner of the #if evaluator
    makes of a preprocessing number. */
module IntConstant {
  import opened Bits
  import opened IntMax
  import opened IntLiteral

  // ---- the grammar ----

  /** The parts of a constant. The digits of an octal one include its leading 0. */
  datatype Constant = Constant(base: nat, mark: string, digits: string, suffix: string)

  predicate AllDigits(base: nat, s: string) { forall i :: 0 <= i < |s| ==> DigitOf(s[i]) < base }

  predicate IsUnsignedSuffix(s: string) { s == "u" || s == "U" }

  predicate IsLongSuffix(s: string) { s == "l" || s == "L" || s == "ll" || s == "LL" }

  predicate IsSuffix(s: string) {
    || s == [] || IsUnsignedSuffix(s) || IsLongSuffix(s)
    || (|s| >= 2 && IsUnsignedSuffix(s[..1]) && IsLongSuffix(s[1..]))
    || (|s| >= 2 && IsLongSuffix(s[..|s| - 1]) && IsUnsignedSuffix(s[|s| - 1..]))
  }

  predicate HasU(s: string) { 'u' in s || 'U' in s }

  /** The mark in front of the digits. Binary constants are the usual extension. */
  predicate IsMark(base: nat, m: string) {
    match base
    case 16 => m == "0x" || m == "0X"
    case 2 => m == "0b" || m == "0B"
    case 8 | 10 => m == []
    case _ => false
  }

  predicate Proper(c: Constant) {
    && IsMark(c.base, c.mark) && c.digits != [] && AllDigits(c.base, c.digits) && IsSuffix(c.suffix)
    && (c.base == 8 ==> c.digits[0] == '0') && (c.base == 10 ==> c.digits[0] != '0')
  }

  /** sp is the spelling of c. */
  predicate Spells(c: Constant, sp: string) { Proper(c) && sp == c.mark + (c.digits + c.suffix) }

  function Denoted(c: Constant): nat { Number(c.base, c.digits) }

  /** A constant has a type when an intmax_t holds it or, for one with a u suffix or in another base
      than ten, a uintmax_t. */
  predicate Typed(c: Constant) { Denoted(c) < TWO63 || (Denoted(c) < TWO64 && (HasU(c.suffix) || c.base != 10)) }

  /** The value of a typed constant. */
  function ValueOf(c: Constant): Value
    requires Typed(c)
  {
    Value(Wrap(Denoted(c)), HasU(c.suffix) || Denoted(c) >= TWO63)
  }

  /** An integer constant that has a type. */
  ghost predicate Standard(sp: string) { exists c :: Spells(c, sp) && Typed(c) }

  /** What C11 makes of a preprocessing number: a value, and an error unless it is a constant that has
      a type. One in error goes on with the evaluator's value. */
  ghost function ConstantMeaning(sp: string): (r: (Value, nat))
    ensures r.1 <= 1
  {
    if Standard(sp) then var c :| Spells(c, sp) && Typed(c); (ValueOf(c), 0) else (Literal(sp), 1)
  }

  // ---- the scanner ----

  /** Where the digits end. */
  function DigitsEnd(sp: string): (e: nat)
    ensures Prefix(sp).1 <= e <= |sp|
  {
    RunEnd(Prefix(sp).0, sp, Prefix(sp).1)
  }

  lemma RunIs(base: nat, sp: string, i: nat, e: nat)
    requires i <= e <= |sp| && (forall j :: i <= j < e ==> DigitOf(sp[j]) < base) && (e < |sp| ==> DigitOf(sp[e]) >= base)
    ensures RunEnd(base, sp, i) == e
  {}

  lemma SuffixLetters(s: string)
    requires IsSuffix(s)
    ensures forall i :: 0 <= i < |s| ==> IsSuffixChar(s[i]) && DigitOf(s[i]) == 16
  {}

  lemma {:induction false} LettersHaveU(sp: string, i: nat)
    requires i <= |sp| && forall j :: i <= j < |sp| ==> IsSuffixChar(sp[j])
    ensures SuffixHasU(sp, i) <==> HasU(sp[i..])
    decreases |sp| - i
  {
    if i < |sp| {
      LettersHaveU(sp, i + 1);
      assert sp[i..] == [sp[i]] + sp[i + 1..];
    }
  }

  lemma {:induction false} LeadingZero(base: nat, digits: string)
    requires digits != [] && digits[0] == '0'
    ensures Number(base, digits) == Number(base, digits[1..])
  {
    var init := digits[..|digits| - 1];
    if init == [] {
      assert digits[1..] == [];
    } else {
      LeadingZero(base, init);
      assert digits[1..][..|digits| - 2] == init[1..];
    }
  }

  /** Where each part stands. */
  lemma PartsAt(c: Constant, sp: string)
    requires sp == c.mark + (c.digits + c.suffix)
    ensures var (m, e) := (|c.mark|, |c.mark| + |c.digits|);
            sp[..m] == c.mark && sp[m..e] == c.digits && sp[e..] == c.suffix
            && (forall j :: m <= j < e ==> sp[j] == c.digits[j - m]) && (forall j :: e <= j < |sp| ==> sp[j] == c.suffix[j - e])
  {}

  /** The mark tells the base. */
  lemma PrefixIs(c: Constant, sp: string)
    requires Spells(c, sp)
    ensures Prefix(sp) == (c.base, if c.base == 8 then 1 else |c.mark|)
  {
    PartsAt(c, sp);
    SuffixLetters(c.suffix);
    hide IsSuffix;
    if c.mark == [] {
      assert sp[0] == c.digits[0];
      if |sp| > 1 { SecondCharacter(c, sp); }
    } else {
      assert sp[0] == sp[..2][0] && sp[1] == sp[..2][1];
    }
  }

  /** Behind a first digit stands no letter that makes a mark. */
  lemma SecondCharacter(c: Constant, sp: string)
    requires Spells(c, sp) && c.mark == [] && |sp| > 1
    ensures sp[1] !in "xXbB" || c.base == 10
  {
    PartsAt(c, sp);
    SuffixLetters(c.suffix);
    hide IsSuffix;
    if |c.digits| > 1 {
      assert sp[1] == c.digits[1];
    } else {
      assert sp[1] == c.suffix[0];
    }
  }

  lemma EndIs(c: Constant, sp: string)
    requires Spells(c, sp)
    ensures DigitsEnd(sp) == |c.mark| + |c.digits|
  {
    PartsAt(c, sp);
    PrefixIs(c, sp);
    SuffixLetters(c.suffix);
    hide IsSuffix, Prefix;
    RunIs(c.base, sp, Prefix(sp).1, |c.mark| + |c.digits|);
  }

  /** The scanner finds the parts of every constant, and its number. */
  lemma ScannerReads(c: Constant, sp: string)
    requires Spells(c, sp)
    ensures Prefix(sp).0 == c.base && sp[DigitsEnd(sp)..] == c.suffix && Magnitude(sp) == Denoted(c)
    ensures SuffixHasU(sp, DigitsEnd(sp)) <==> HasU(c.suffix)
    ensures c.base == 8 || DigitsEnd(sp) > Prefix(sp).1
  {
    PartsAt(c, sp);
    PrefixIs(c, sp);
    EndIs(c, sp);
    SuffixLetters(c.suffix);
    hide IsSuffix, Prefix, RunEnd;
    var e := DigitsEnd(sp);
    LettersHaveU(sp, e);
    if c.base == 8 {
      LeadingZero(8, c.digits);
      assert sp[1..e] == c.digits[1..];
    }
  }

  /** A spelling is a constant exactly when the scanner finds a digit and what it leaves is a suffix. */
  lemma ConstantScanned(sp: string)
    ensures (exists c :: Spells(c, sp)) <==> (Prefix(sp).0 == 8 || DigitsEnd(sp) > Prefix(sp).1) && IsSuffix(sp[DigitsEnd(sp)..])
  {
    hide IsSuffix, RunEnd, SuffixHasU, HasU, Number, Prefix;
    if c :| Spells(c, sp) {
      ScannerReads(c, sp);
    }
    if (Prefix(sp).0 == 8 || DigitsEnd(sp) > Prefix(sp).1) && IsSuffix(sp[DigitsEnd(sp)..]) {
      ScannedSpells(sp);
    }
  }

  lemma ScannedSpells(sp: string)
    requires (Prefix(sp).0 == 8 || DigitsEnd(sp) > Prefix(sp).1) && IsSuffix(sp[DigitsEnd(sp)..])
    ensures exists c :: Spells(c, sp)
  {
    hide IsSuffix, Prefix, RunEnd, DigitsEnd, AllDigits, IsMark;
    DigitsAre(sp);
    MarkIs(sp);
    var (base, e) := (Prefix(sp).0, DigitsEnd(sp));
    var skip := DigitsStart(sp);
    Parts(sp, skip, e);
    assert Spells(Constant(base, sp[..skip], sp[skip..e], sp[e..]), sp);
  }

  /** Where the digits start, the leading 0 of an octal constant included. */
  function DigitsStart(sp: string): (i: nat)
    ensures i <= |sp|
  {
    if Prefix(sp).0 == 8 then 0 else Prefix(sp).1
  }

  lemma DigitsAre(sp: string)
    requires Prefix(sp).0 == 8 || DigitsEnd(sp) > Prefix(sp).1
    ensures var (base, i, e) := (Prefix(sp).0, DigitsStart(sp), DigitsEnd(sp));
            i < e <= |sp| && AllDigits(base, sp[i..e])
            && (base == 8 ==> sp[i..e][0] == '0') && (base == 10 ==> sp[i..e][0] != '0')
  {}

  lemma Parts(sp: string, i: nat, j: nat)
    requires i <= j <= |sp|
    ensures sp == sp[..i] + (sp[i..j] + sp[j..])
  {}

  lemma MarkIs(sp: string)
    ensures IsMark(Prefix(sp).0, sp[..DigitsStart(sp)])
  {
    if |sp| >= 2 {
      assert sp[..2] == [sp[0], sp[1]];
    }
  }

  /** The scanner gives every constant that has a type its value. It reports every overflow of 2^64 and
      misses all other errors: it is right exactly on numbers that overflow and on typed constants. */
  lemma ScannerExact(sp: string)
    ensures Literal(sp) == ConstantMeaning(sp).0
    ensures Overflows(sp) ==> ConstantMeaning(sp).1 == 1
    ensures (if Overflows(sp) then 1 else 0) == ConstantMeaning(sp).1 <==> Overflows(sp) || Standard(sp)
  {
    hide Spells, Number;
    forall c | Spells(c, sp) && Typed(c)
      ensures !Overflows(sp) && Literal(sp) == ValueOf(c)
    {
      ScannerReads(c, sp);
    }
  }

  /** The comment on the scanner makes a constant beyond INTMAX_MAX unsigned in every base. Up to 2^64 the
      scanner keeps that promise exactly for the constants that have a type. */
  lemma PromotionExact(c: Constant, sp: string)
    requires Spells(c, sp) && Denoted(c) < TWO64
    ensures (Literal(sp).uns <==> HasU(c.suffix) || Denoted(c) >= TWO63) <==> Typed(c)
  {
    hide Spells, Number;
    ScannerReads(c, sp);
  }

  const LOWER: string := "0123456789abcdef"
  const UPPER: string := "0123456789ABCDEF"

  /** The value of a digit is its place in the table of its case. */
  lemma DigitTable(d: nat, c: char)
    requires d < 16
    ensures DigitOf(LOWER[d]) == d == DigitOf(UPPER[d])
    ensures DigitOf(c) < 16 ==> LOWER[DigitOf(c)] == c || UPPER[DigitOf(c)] == c
  {}

  /** The scanner reports an overflow of a constant exactly when its number does not fit 64 bits. */
  lemma OverflowExact(c: Constant, sp: string)
    requires Spells(c, sp)
    ensures Overflows(sp) <==> Denoted(c) >= 0x1_0000_0000_0000_0000
  {
    hide Spells, Number;
    ScannerReads(c, sp);
  }

  // ---- examples ----

  lemma OneDigit(d: char)
    requires '0' <= d <= '9'
    ensures Standard([d]) && Literal([d]) == Signed(DigitOf(d)) && !Overflows([d])
  {
    var c := Constant(if d == '0' then 8 else 10, [], [d], []);
    assert [] + ([d] + []) == [d];
    NumberOfOne(c.base, d);
    assert Proper(c);
    ScannerReads(c, [d]);
    hide Spells, Number, IsSuffix, RunEnd, Prefix, Proper;
    assert Typed(c);
    SignedOfOne(c, [d]);
  }

  lemma NumberOfOne(base: nat, d: char)
    ensures Number(base, [d]) == DigitOf(d)
  {
    assert [d][..0] == [];
  }

  lemma SignedOfOne(c: Constant, sp: string)
    requires Magnitude(sp) == Denoted(c) < TWO63 && Prefix(sp).0 == c.base && c.suffix == []
    requires SuffixHasU(sp, DigitsEnd(sp)) <==> HasU(c.suffix)
    ensures Literal(sp) == Signed(Denoted(c)) && !Overflows(sp)
  {
    hide Number, RunEnd, Prefix;
  }

  /** A digit and something behind it that the scanner leaves and that is no suffix. */
  lemma Malformed(sp: string)
    requires |sp| >= 2 && '0' <= sp[0] <= '9' && sp[1] !in "uUlL" && DigitOf(sp[1]) >= 8
    requires sp[0] == '0' ==> sp[1] !in "xXbB"
    requires sp[0] != '0' ==> DigitOf(sp[1]) >= 10
    ensures !Standard(sp) && !Overflows(sp) && Literal(sp) == Signed(DigitOf(sp[0]))
  {
    assert DigitsEnd(sp) == 1;
    NumberOfOne(Prefix(sp).0, sp[0]);
    assert sp[0..1] == [sp[0]] && sp[1..1] == [];
    hide Number, IsSuffix, RunEnd, Spells;
    ConstantScanned(sp);
    if IsSuffix(sp[1..]) { SuffixLetters(sp[1..]); }
  }

  lemma UntypedNumber(c: Constant, sp: string)
    requires Spells(c, sp) && c.base == 10 && !HasU(c.suffix) && TWO63 <= Denoted(c) < TWO64
    ensures !Standard(sp) && !Overflows(sp) && Literal(sp) == Signed(Denoted(c) - TWO64)
  {
    hide Spells, Number;
    ScannerReads(c, sp);
    forall d | Spells(d, sp) ensures !Typed(d) { ScannerReads(d, sp); }
  }

  /** Three digits more. */
  lemma NumberOfThree(sp: string, k: nat)
    requires k + 3 <= |sp|
    ensures Number(10, sp[..k + 3])
              == Number(10, sp[..k]) * 1000 + DigitOf(sp[k]) * 100 + DigitOf(sp[k + 1]) * 10 + DigitOf(sp[k + 2])
  {
    hide Number;
    NumberStep(10, sp, 0, k);
    NumberStep(10, sp, 0, k + 1);
    NumberStep(10, sp, 0, k + 2);
  }

  const BIG: string := "9223372036854775808"

  lemma BigHead()
    ensures |BIG| == 19 && Number(10, BIG[..10]) == 9223372036
  {
    hide Number;
    assert BIG[..1] == ['9'];
    NumberOfOne(10, '9');
    NumberOfThree(BIG, 1);
    NumberOfThree(BIG, 4);
    NumberOfThree(BIG, 7);
  }

  lemma BigTail()
    requires |BIG| == 19 && Number(10, BIG[..10]) == 9223372036
    ensures Number(10, BIG[..19]) == TWO63
  {
    hide Number;
    NumberOfThree(BIG, 10);
    NumberOfThree(BIG, 13);
    NumberOfThree(BIG, 16);
  }

  lemma BigDecimal()
    ensures var c := Constant(10, [], BIG, []);
            Proper(c) && !HasU(c.suffix) && Denoted(c) == TWO63
  {
    BigHead();
    BigTail();
    hide Number;
    assert BIG[..19] == BIG;
  }
}
