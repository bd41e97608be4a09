/** Where the evaluator gives a line the meaning that C11 6.6 and 6.10.1 give it, and what it gives the
    others. */
module IfExact {
  import opened Bits
  import opened IntMax
  import opened IntLiteral
  import opened IntConstant
  import opened IfEval
  import opened IfTrees
  import opened IfEvaluates
  import opened IfJams
  import opened Options

  // ---- the reading and the meaning ----

  /** No condition that is reached, in the arms that are not selected as well, ends skipped. */
  ghost predicate ReadWhole(env: Env, e: Expr) {
    match e
    case Paren(x) => ReadWhole(env, x)
    case Unary(_, x) => ReadWhole(env, x)
    case Binary(_, l, r) => ReadWhole(env, l) && ReadWhole(env, r)
    case LAnd(l, r) => ReadWhole(env, l) && (Num(Meaning(env, l).v) != 0 ==> ReadWhole(env, r))
    case LOr(l, r) => ReadWhole(env, l) && (Num(Meaning(env, l).v) == 0 ==> ReadWhole(env, r))
    case Cond(c, a, b) => ReadWhole(env, c) && ReadWhole(env, a) && ReadWhole(env, b) && !EndsSkipped(env, c)
    case _ => true
  }

  /** What is evaluated raises no error that the evaluator misses: its operands are not those of a trap,
      and its numbers are constants that have a type, or do not fit 64 bits. */
  ghost predicate TrapFree(env: Env, e: Expr) {
    match e
    case Number(sp) => Overflows(sp) || Standard(sp)
    case Paren(x) => TrapFree(env, x)
    case Unary(_, x) => TrapFree(env, x)
    case Binary(op, l, r) =>
      TrapFree(env, l) && TrapFree(env, r) && !Trap(op, Meaning(env, l).v, Meaning(env, r).v)
    case LAnd(l, r) => TrapFree(env, l) && (Num(Meaning(env, l).v) != 0 ==> TrapFree(env, r))
    case LOr(l, r) => TrapFree(env, l) && (Num(Meaning(env, l).v) == 0 ==> TrapFree(env, r))
    case Cond(c, a, b) => TrapFree(env, c) && TrapFree(env, if Num(Meaning(env, c).v) != 0 then a else b)
    case _ => true
  }

  lemma ZeroIs(x: Value)
    ensures Num(x) == 0 <==> x.v == 0
  {}

  lemma NegExact(x: Value)
    ensures var s := Store(-Num(x), x.uns); CodeNeg(x) == Step(s.val, s.errs, false)
    ensures CodeNot(x) == Value(Wrap(-1 - Num(x)), x.uns)
  {}

  lemma UnaryExact(op: UnOp, x: Value)
    ensures ReadUn(op, x) == MathUn(op, x)
  {
    NegExact(x);
    ZeroIs(x);
  }

  /** An operator that the evaluator gets wrong raises one error less than it should. */
  lemma TrapMissesOne(op: BinOp, v: Value, r: Value)
    ensures CodeOp(op, v, r).errs <= MathOp(op, v, r).errs
    ensures CodeOp(op, v, r).errs == MathOp(op, v, r).errs <==> !Trap(op, v, r)
    ensures CodeOp(op, v, r).val == MathOp(op, v, r).val
  {
    OperatorsExact(op, v, r);
  }

  /** The arm that is selected keeps its bit pattern, and takes the sign that both arms together give it. */
  lemma SelectExact(first: bool, a: Value, b: Value)
    ensures Select(first, a, b) == Value(Wrap(Num(if first then a else b)), a.uns || b.uns)
  {}

  /** Without skipped conditions the evaluator's reading of a tree has the value that C11 gives it and
      no error too many; the errors are the same exactly when none is missed. */
  lemma {:induction false} ReadingExact(env: Env, e: Expr)
    requires ReadWhole(env, e)
    ensures Reading(env, e).v == Meaning(env, e).v
    ensures Reading(env, e).errs <= Meaning(env, e).errs
    ensures Reading(env, e).errs == Meaning(env, e).errs <==> TrapFree(env, e)
  {
    hide CodeOp, MathOp, ReadUn, MathUn, Trap, Num, ConstantMeaning, Select, Wrap, Literal, Overflows, Standard;
    match e {
      case Number(sp) => ScannerExact(sp);
      case Paren(x) => ReadingExact(env, x);
      case Unary(op, x) =>
        ReadingExact(env, x);
        UnaryExact(op, Meaning(env, x).v);
      case Binary(op, l, r) =>
        ReadingExact(env, l);
        ReadingExact(env, r);
        TrapMissesOne(op, Meaning(env, l).v, Meaning(env, r).v);
      case LAnd(l, r) =>
        ReadingExact(env, l);
        ZeroIs(Meaning(env, l).v);
        if Num(Meaning(env, l).v) != 0 { ReadingExact(env, r); ZeroIs(Meaning(env, r).v); }
      case LOr(l, r) =>
        ReadingExact(env, l);
        ZeroIs(Meaning(env, l).v);
        if Num(Meaning(env, l).v) == 0 { ReadingExact(env, r); ZeroIs(Meaning(env, r).v); }
      case Cond(c, a, b) =>
        ReadingExact(env, c);
        ReadingExact(env, a);
        ReadingExact(env, b);
        ZeroIs(Meaning(env, c).v);
        SelectExact(Num(Meaning(env, c).v) != 0, Meaning(env, a).v, Meaning(env, b).v);
      case _ =>
    }
  }

  // ---- lines ----

  lemma WholeLine(e: Expr)
    ensures Toks(e) + [] == Toks(e) && Tame([]) && FollowOK(12, [])
  {}

  /** Every line that the grammar derives: the evaluator reports an error exactly when it gets out of
      step or its reading has one, and in step the value is that of its reading. */
  lemma LineReading(env: Env, e: Expr)
    requires WellFormed(e)
    ensures var (v, error) := IfExpr(env, Toks(e));
            (error <==> Jams(env, e) || Reading(env, e).errs > 0) && (!Jams(env, e) ==> v == Reading(env, e).v)
  {
    hide Reading, Toks, Ev, Tame, Surplus;
    WholeLine(e);
    var c := Ctx(Toks(e), false, 0, false);
    if Jams(env, e) {
      hide Jams;
      JamLeaves(env, 12, e, [], c);
    } else {
      hide Jams;
      EvaluatorReads(env, 12, e, [], c);
    }
  }

  /** Every line that no condition ending skipped and no missed error is reached in: an error is
      reported exactly when C11 asks for one or the evaluator gets out of step. */
  lemma LineMeaning(env: Env, e: Expr)
    requires WellFormed(e) && ReadWhole(env, e) && TrapFree(env, e)
    ensures var ((v, error), d) := (IfExpr(env, Toks(e)), Meaning(env, e));
            (error <==> Jams(env, e) || d.errs > 0) && (!Jams(env, e) ==> v == d.v)
  {
    hide *;
    LineReading(env, e);
    ReadingExact(env, e);
  }

  /** The trees that are evaluated as C11 says. */
  ghost predicate Regular(env: Env, e: Expr) { ReadWhole(env, e) && TrapFree(env, e) && !Jams(env, e) }

  /** On regular trees, wherever they stand, the evaluator computes the meaning. */
  lemma EvaluatorIsMeaning(env: Env, k: nat, e: Expr, f: seq<Tok>, c: Ctx)
    requires WellFormed(e) && Regular(env, e) && Lvl(e) <= k <= 12
    requires c.rest == Toks(e) + f && FollowOK(if k == 0 then 1 else k, f)
    requires Next(f, Question) ==> !EndsSkipped(env, e)
    ensures Ev(env, k, c) == (Meaning(env, e).v, After(c, f, Meaning(env, e).errs))
  {
    hide Ev, Toks, Reading, Meaning, After, WellFormed, Lvl, FollowOK, EndsSkipped;
    ReadingExact(env, e);
    EvaluatorReads(env, k, e, f, c);
  }

  lemma IfExprIsMeaning(env: Env, e: Expr)
    requires WellFormed(e) && Regular(env, e)
    ensures IfExpr(env, Toks(e)) == (Meaning(env, e).v, Meaning(env, e).errs > 0)
  {
    hide Ev, Toks, Meaning, Jams, ReadWhole, TrapFree, IfExpr;
    LineMeaning(env, e);
  }

  // ---- constants ----

  /** A line that is one preprocessing number comes out as C11 says exactly when the number overflows 64
      bits or is an integer constant that has a type. */
  lemma NumberLine(env: Env, sp: string)
    ensures AsMeant(env, Number(sp)) <==> Overflows(sp) || Standard(sp)
  {
    hide IfExpr, Toks, Literal, Overflows, ConstantMeaning, Standard;
    LineReading(env, Number(sp));
    ScannerExact(sp);
  }

  /** For instance 08, 1x and 1.5 are no integer constants, and are accepted as 0, 1 and 1. */
  lemma MalformedExample(env: Env, sp: string)
    requires sp in {"08", "1x", "1.5"}
    ensures Meaning(env, Number(sp)).errs == 1
    ensures IfExpr(env, Toks(Number(sp))) == (Signed(if sp == "08" then 0 else 1), false)
  {
    hide IfExpr, Toks, Literal, Overflows, ConstantMeaning, Standard;
    Malformed(sp);
    ScannerExact(sp);
    LineReading(env, Number(sp));
  }

  /** A decimal constant from 2^63 to 2^64 - 1 without a u has no type. It is accepted as a negative
      number. */
  lemma UntypedLine(env: Env, c: Constant, sp: string)
    requires Spells(c, sp) && c.base == 10 && !HasU(c.suffix) && TWO63 <= Denoted(c) < TWO64
    ensures var e := Binary(Gt, Number(sp), Number("0"));
            WellFormed(e) && Meaning(env, e).errs == 1 && IfExpr(env, Toks(e)) == (Signed(0), false)
  {
    hide IfExpr, Toks, Literal, Overflows, ConstantMeaning, Standard, Spells;
    var e := Binary(Gt, Number(sp), Number("0"));
    UntypedNumber(c, sp);
    ScannerExact(sp);
    SmallLiterals();
    LineReading(env, e);
  }

  /** For instance `9223372036854775808 > 0`. */
  lemma UntypedExample(env: Env)
    ensures var e := Binary(Gt, Number("9223372036854775808"), Number("0"));
            Meaning(env, e).errs == 1 && IfExpr(env, Toks(e)) == (Signed(0), false)
  {
    hide IfExpr, Toks, Meaning;
    BigDecimal();
    assert [] + (BIG + []) == BIG;
    UntypedLine(env, Constant(10, [], BIG, []), BIG);
  }

  // ---- inner zero divisors ----

  /** The evaluator gets out of step in an arm that is not selected. */
  ghost predicate DeadJam(env: Env, e: Expr) {
    match e
    case Paren(x) => DeadJam(env, x)
    case Unary(_, x) => DeadJam(env, x)
    case Binary(_, l, r) => DeadJam(env, l) || DeadJam(env, r)
    case LAnd(l, r) => DeadJam(env, l) || (Num(Meaning(env, l).v) != 0 && DeadJam(env, r))
    case LOr(l, r) => DeadJam(env, l) || (Num(Meaning(env, l).v) == 0 && DeadJam(env, r))
    case Cond(c, a, b) =>
      DeadJam(env, c) ||
      if Num(Meaning(env, c).v) != 0 then DeadJam(env, a) || Jams(env, b) else Jams(env, a) || DeadJam(env, b)
    case _ => false
  }

  lemma ZeroDivIsError(env: Env, e: Expr)
    requires ReadWhole(env, e) && ZeroDiv(env, e)
    ensures Meaning(env, e).errs > 0
  {
    hide Meaning, Reading;
    ReadingExact(env, e.r);
    ZeroIs(Meaning(env, e.r).v);
    MeaningOfBinary(env, e);
  }

  lemma MeaningOfBinary(env: Env, e: Expr)
    requires e.Binary?
    ensures var (dl, dr) := (Meaning(env, e.l), Meaning(env, e.r));
            var s := MathOp(e.op, dl.v, dr.v);
            Meaning(env, e) == Den(s.val, dl.errs + dr.errs + s.errs)
  {
    hide MathOp;
  }

  /** Where nothing that is evaluated is in error, a jam stands in an arm that is not selected. */
  lemma {:induction false} JamIsDead(env: Env, e: Expr)
    requires ReadWhole(env, e) && Meaning(env, e).errs == 0
    ensures Jams(env, e) <==> DeadJam(env, e)
  {
    hide MathOp, MathUn, Num, ZeroDiv, Reading;
    match e {
      case Paren(x) => JamIsDead(env, x);
      case Unary(_, x) => JamIsDead(env, x);
      case Binary(op, l, r) =>
        JamIsDead(env, l);
        JamIsDead(env, r);
        if ZeroDiv(env, l) { ZeroDivIsError(env, l); }
      case LAnd(l, r) =>
        ReadingExact(env, l);
        ZeroIs(Meaning(env, l).v);
        JamIsDead(env, l);
        if Num(Meaning(env, l).v) != 0 { JamIsDead(env, r); }
      case LOr(l, r) =>
        ReadingExact(env, l);
        ZeroIs(Meaning(env, l).v);
        JamIsDead(env, l);
        if Num(Meaning(env, l).v) == 0 { JamIsDead(env, r); }
      case Cond(c, a, b) =>
        ReadingExact(env, c);
        JamIsDead(env, c);
        JamIsDead(env, if Num(Meaning(env, c).v) != 0 then a else b);
      case _ =>
    }
  }

  /** A line is accepted exactly when C11 accepts it and no arm that is not selected holds a reached
      zero divisor with a multiplicative operator behind it; an accepted line has the value that C11
      gives it. */
  lemma LineAccepted(env: Env, e: Expr)
    requires WellFormed(e) && ReadWhole(env, e) && TrapFree(env, e)
    ensures var ((v, error), d) := (IfExpr(env, Toks(e)), Meaning(env, e));
            (!error <==> d.errs == 0 && !DeadJam(env, e)) && (!error ==> v == d.v)
  {
    hide *;
    LineMeaning(env, e);
    if Meaning(env, e).errs == 0 {
      JamIsDead(env, e);
    }
  }

  /** A multiplicative phrase whose operands are read to their ends. */
  predicate OperandsStay(env: Env, e: Expr) {
    if e.Binary? && Level(e.op) == 2 then OperandsStay(env, e.l) && !Jams(env, e.r) else !Jams(env, e)
  }

  /** Every divisor of the chain but the last is non-zero. */
  predicate InnerDivisorsNonZero(env: Env, e: Expr) {
    e.Binary? && Level(e.op) == 2 ==> !ZeroDiv(env, e.l) && InnerDivisorsNonZero(env, e.l)
  }

  lemma {:induction false} ChainJams(env: Env, e: Expr)
    requires OperandsStay(env, e)
    ensures Jams(env, e) <==> !InnerDivisorsNonZero(env, e)
  {
    hide Reading;
    if e.Binary? && Level(e.op) == 2 {
      ChainJams(env, e.l);
    }
  }

  /** A chain of `*`, `/` and `%` is read to its end exactly when no divisor before the last one is
      zero: the operand loop is left at the first zero divisor. */
  lemma MulChainReadToEnd(env: Env, e: Expr, f: seq<Tok>, c: Ctx)
    requires WellFormed(e) && Lvl(e) <= 2 && OperandsStay(env, e)
    requires FollowOK(2, f) && !Next(f, Question) && c.rest == Toks(e) + f
    ensures Ev(env, 2, c).1.rest == f <==> InnerDivisorsNonZero(env, e)
  {
    hide Ev, Toks, Reading, OperandsStay, InnerDivisorsNonZero;
    ChainJams(env, e);
    if Jams(env, e) {
      ChainBreaks(env, e, f, c);
    } else {
      EvaluatorReads(env, 2, e, f, c);
      AfterRest(c, f, Reading(env, e).errs);
    }
  }

  lemma {:induction false} ChainBreaks(env: Env, e: Expr, g: seq<Tok>, c: Ctx)
    requires WellFormed(e) && Lvl(e) <= 2 && OperandsStay(env, e) && Jams(env, e) && c.rest == Toks(e) + g
    ensures |Ev(env, 2, c).1.rest| > |g| && NextIsOp(Ev(env, 2, c).1.rest, 2)
  {
    var h := [P(Op(e.op))] + (Toks(e.r) + g);
    assert c.rest == Toks(e.l) + h;
    hide Ev, Toks, Reading;
    if Jams(env, e.l) {
      ChainBreaks(env, e.l, h, c);
    } else {
      ZeroDivStops(env, e.l, h, c);
    }
  }

  /** The same of every phrase in front of tame tokens: it is read to its end exactly when it does
      not jam. */
  lemma PhraseReadToEnd(env: Env, k: nat, e: Expr, f: seq<Tok>, c: Ctx)
    requires WellFormed(e) && Lvl(e) <= k <= 12 && c.rest == Toks(e) + f
    requires FollowOK(if k == 0 then 1 else k, f) && Tame(f) && (Next(f, Question) ==> !EndsSkipped(env, e))
    ensures Ev(env, k, c).1.rest == f <==> !Jams(env, e)
  {
    hide Ev, Toks, Reading, Tame, Surplus, WellFormed;
    if Jams(env, e) {
      hide Jams;
      JamLeaves(env, k, e, f, c);
    } else {
      EvaluatorReads(env, k, e, f, c);
      AfterRest(c, f, Reading(env, e).errs);
    }
  }

  /** A conditional that C11 accepts and whose condition and selected arm hold no jam: the line is
      accepted exactly when the arm that is not selected, be it the first or the second, does not
      jam. */
  lemma UnselectedArm(env: Env, e: Expr)
    requires e.Cond? && WellFormed(e) && ReadWhole(env, e) && TrapFree(env, e) && Meaning(env, e).errs == 0
    requires !Jams(env, e.c)
    requires var first := Num(Meaning(env, e.c).v) != 0; !Jams(env, if first then e.a else e.b)
    ensures var other := if Num(Meaning(env, e.c).v) != 0 then e.b else e.a;
            !IfExpr(env, Toks(e)).1 <==> !Jams(env, other)
  {
    LineMeaning(env, e);
    hide Reading, Meaning, IfExpr;
  }

  lemma SmallLiterals()
    ensures Literal("0") == Signed(0) && !Overflows("0") && ConstantMeaning("0") == (Signed(0), 0)
    ensures Literal("1") == Signed(1) && !Overflows("1") && ConstantMeaning("1") == (Signed(1), 0)
    ensures Literal("2") == Signed(2) && !Overflows("2") && ConstantMeaning("2") == (Signed(2), 0)
  {
    hide Literal, Overflows, ConstantMeaning, Standard;
    assert "0" == ['0'] && "1" == ['1'] && "2" == ['2'];
    OneDigit('0');
    OneDigit('1');
    OneDigit('2');
    ScannerExact("0");
    ScannerExact("1");
    ScannerExact("2");
  }

  /** A regular conditional gives the number of the arm that its condition selects, when the arms are
      both signed. */
  lemma ConditionalGives(env: Env, e: Expr)
    requires e.Cond? && WellFormed(e) && Regular(env, e) && Meaning(env, e).errs == 0
    requires !Meaning(env, e.a).v.uns && !Meaning(env, e.b).v.uns
    ensures var first := Num(Meaning(env, e.c).v) != 0;
            IfExpr(env, Toks(e)) == (Meaning(env, if first then e.a else e.b).v, false)
  {
    hide IfExpr, Toks, WellFormed, Regular;
    IfExprIsMeaning(env, e);
    PatternKept(Meaning(env, e.a).v.v);
    PatternKept(Meaning(env, e.b).v.v);
  }

  lemma PatternKept(x: I64)
    ensures Wrap(x) == x
  {}

  /** `1 ? 2 : 0` is 2, and `0 ? 2 : 0` is 0. */
  lemma SelectedExample(env: Env, c: string)
    requires c in {"0", "1"}
    ensures IfExpr(env, Toks(Cond(Number(c), Number("2"), Number("0")))) == (Value(if c == "1" then 2 else 0, false), false)
  {
    hide IfExpr, Toks, Literal, Overflows, ConstantMeaning, Standard;
    SmallLiterals();
    LineReading(env, Cond(Number(c), Number("2"), Number("0")));
  }

  /** `1 / 0 * 1`. */
  function InnerZero(): Expr { Binary(Mul, Binary(Div, Number("1"), Number("0")), Number("1")) }

  /** For instance `0 ? A : 1` and `1 ? 1 : A` where A is `1 / 0 * 1`, `(1 / 0 * 1)` or
      `1 / 0 * 1 + 2`: C11 accepts all six and the evaluator none. */
  lemma UnselectedArmExample(env: Env, arm: Expr)
    requires arm in {InnerZero(), Paren(InnerZero()), Binary(Add, InnerZero(), Number("2"))}
    ensures var e := Cond(Number("0"), arm, Number("1")); Meaning(env, e).errs == 0 && IfExpr(env, Toks(e)).1
    ensures var e := Cond(Number("1"), Number("1"), arm); Meaning(env, e).errs == 0 && IfExpr(env, Toks(e)).1
  {
    ArmJams(env, arm);
    JamInFirst(env, arm);
    JamInSecond(env, arm);
  }

  lemma ArmJams(env: Env, arm: Expr)
    requires arm in {InnerZero(), Paren(InnerZero()), Binary(Add, InnerZero(), Number("2"))}
    ensures WellFormed(arm) && Jams(env, arm)
  {
    hide IfExpr, Toks, Literal, Overflows, ConstantMeaning, Standard;
    SmallLiterals();
    assert ZeroDiv(env, InnerZero().l);
  }

  lemma JamInFirst(env: Env, arm: Expr)
    requires WellFormed(arm) && Jams(env, arm)
    ensures var e := Cond(Number("0"), arm, Number("1")); Meaning(env, e).errs == 0 && IfExpr(env, Toks(e)).1
  {
    hide IfExpr, Toks, Literal, Overflows, ConstantMeaning, Standard;
    SmallLiterals();
    LineReading(env, Cond(Number("0"), arm, Number("1")));
  }

  lemma JamInSecond(env: Env, arm: Expr)
    requires WellFormed(arm) && Jams(env, arm)
    ensures var e := Cond(Number("1"), Number("1"), arm); Meaning(env, e).errs == 0 && IfExpr(env, Toks(e)).1
  {
    hide IfExpr, Toks, Literal, Overflows, ConstantMeaning, Standard;
    SmallLiterals();
    LineReading(env, Cond(Number("1"), Number("1"), arm));
  }

  // ---- conditions that end skipped ----

  /** `C ? A : B` where the last operand of C is skipped. A true C is the result, and so is a false one
      when B has no `||` outside parentheses. Otherwise the line is evaluated as what is left of B from
      its first `||` on, with 0 in front of it. */
  lemma SwallowedConditional(env: Env, e: Expr)
    requires e.Cond? && WellFormed(e) && ReadWhole(env, e.c) && TrapFree(env, e.c) && !Jams(env, e.c)
    requires EndsSkipped(env, e.c)
    ensures var (dc, r, (v, error)) := (Meaning(env, e.c), Resume(e.b), IfExpr(env, Toks(e)));
            if Num(dc.v) != 0 || r == None then v == dc.v && (error <==> dc.errs > 0)
            else var (w, wrong) := IfExpr(env, Toks(r.value));
                 (error <==> dc.errs > 0 || wrong) && (!error ==> v == w)
  {
    ReadingOfSwallowed(env, e);
    hide IfExpr, Reading, Jams, Toks, Meaning, ReadWhole, TrapFree, EndsSkipped, Num, WellFormed, Resume;
    ReadingExact(env, e.c);
    ZeroIs(Meaning(env, e.c).v);
    LineReading(env, e);
    if Num(Meaning(env, e.c).v) == 0 && Resume(e.b).Some? {
      LineReading(env, Resume(e.b).value);
    }
  }

  lemma ReadingOfSwallowed(env: Env, e: Expr)
    requires e.Cond? && WellFormed(e) && EndsSkipped(env, e.c) && !Jams(env, e.c)
    ensures var (dc, r) := (Reading(env, e.c), Resume(e.b));
            if dc.v.v != 0 || r == None then Reading(env, e) == dc && !Jams(env, e)
            else var d := Reading(env, r.value);
                 WellFormed(r.value) && Reading(env, e) == Den(d.v, dc.errs + d.errs) && (Jams(env, e) <==> Jams(env, r.value))
  {}

  /** The line has the outcome that C11 gives it. */
  ghost predicate AsMeant(env: Env, e: Expr) {
    var ((v, error), d) := (IfExpr(env, Toks(e)), Meaning(env, e));
    (error <==> d.errs > 0) && (!error ==> v == d.v)
  }

  /** A conditional of regular parts is evaluated as C11 says exactly when the last operand of its
      condition is not skipped, or what is evaluated in its place happens to come to the same. */
  lemma ConditionalExact(env: Env, e: Expr)
    requires e.Cond? && WellFormed(e) && Regular(env, e.c) && Regular(env, e.a) && Regular(env, e.b)
    ensures var (d, dc, r) := (Meaning(env, e), Meaning(env, e.c), Resume(e.b));
            AsMeant(env, e) <==>
              !EndsSkipped(env, e.c) ||
              if Num(dc.v) != 0 || r == None then (dc.errs > 0 <==> d.errs > 0) && (d.errs == 0 ==> dc.v == d.v)
              else var (w, wrong) := IfExpr(env, Toks(r.value));
                   (dc.errs > 0 || wrong <==> d.errs > 0) && (d.errs == 0 ==> w == d.v)
  {
    hide IfExpr, Reading, Jams, Toks, Meaning, ReadWhole, TrapFree, EndsSkipped, Num, WellFormed, Resume;
    if EndsSkipped(env, e.c) {
      SwallowedConditional(env, e);
    } else {
      RegularParts(env, e);
      IfExprIsMeaning(env, e);
    }
  }

  lemma RegularParts(env: Env, e: Expr)
    requires e.Cond? && Regular(env, e.c) && Regular(env, e.a) && Regular(env, e.b) && !EndsSkipped(env, e.c)
    ensures Regular(env, e)
  {
    hide EndsSkipped, Reading, Meaning, Num;
  }

  /** For instance `0 && 1 ? 1 : 1`, whose value is 1, is evaluated to 0. */
  lemma SwallowedExample(env: Env)
    ensures var e := Cond(LAnd(Number("0"), Number("1")), Number("1"), Number("1"));
            WellFormed(e) && Meaning(env, e) == Den(Signed(1), 0) && IfExpr(env, Toks(e)) == (Signed(0), false)
  {
    hide IfExpr, Toks, Literal, Overflows, ConstantMeaning, Standard;
    SmallLiterals();
    assert Meaning(env, LAnd(Number("0"), Number("1"))) == Den(Signed(0), 0);
    LineReading(env, Cond(LAnd(Number("0"), Number("1")), Number("1"), Number("1")));
  }

  /** And `0 && 1 ? 1 : 1 || 0` is evaluated as `0 || 0`; of `0 && 1 ? 1 : 0 || 1` what is evaluated
      is `0 || 1`, which happens to have the right value. */
  lemma ResumedExample(env: Env, x: string, y: string)
    requires (x, y) in {("1", "0"), ("0", "1")}
    ensures var e := Cond(LAnd(Number("0"), Number("1")), Number("1"), LOr(Number(x), Number(y)));
            WellFormed(e) && Meaning(env, e) == Den(Signed(1), 0)
            && IfExpr(env, Toks(e)) == IfExpr(env, Toks(LOr(Number("0"), Number(y)))) == (Literal(y), false)
  {
    hide IfExpr, Toks, Literal, Overflows, ConstantMeaning, Standard;
    SmallLiterals();
    assert Meaning(env, LAnd(Number("0"), Number("1"))) == Den(Signed(0), 0);
    assert Meaning(env, LOr(Number(x), Number(y))) == Den(Signed(1), 0);
    LineReading(env, Cond(LAnd(Number("0"), Number("1")), Number("1"), LOr(Number(x), Number(y))));
    LineReading(env, LOr(Number("0"), Number(y)));
  }
}
