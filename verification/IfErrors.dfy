/** Lines outside the grammar of the expression trees: what is missing or out of place is an error, and
    what the evaluator takes beyond C11, commas and operators of the __has_* family, has its value. */
module IfErrors {
  import opened Bits
  import opened IntMax
  import opened IntLiteral
  import opened IfEval
  import opened IfTrees
  import opened IfEvaluates
  import opened IfExact

  function Start(s: seq<Tok>): Ctx { Ctx(s, false, 0, false) }

  lemma EmptyLine(env: Env)
    ensures IfExpr(env, []) == (Value(0, false), true)
  {}

  /** An error at one level is one at every level above. */
  lemma {:induction false} ErrorUp(env: Env, j: nat, k: nat, c: Ctx)
    requires 1 <= j <= k <= 12 && Ev(env, j, c).1.hadError && !Next(c.rest, Comma)
    ensures Ev(env, k, c).1.hadError
  {
    hide Lp, Primary, Arms, CodeOp;
    if j < k {
      ErrorUp(env, j, k - 1, c);
      if k <= 11 {
        EvUp(env, k, c);
      } else {
        assert Ev(env, 12, c) == Conditional(env, c);
        hide Ev;
      }
    }
  }

  lemma LineError(env: Env, k: nat, s: seq<Tok>)
    requires s != [] && 1 <= k <= 12 && Ev(env, k, Start(s)).1.hadError && !Next(s, Comma)
    ensures IfExpr(env, s).1
  {
    ErrorUp(env, k, 12, Start(s));
    hide Ev;
  }

  /** A parenthesis that is not closed. */
  lemma MissingClose(env: Env, e: Expr)
    requires WellFormed(e) && !Jams(env, e)
    ensures IfExpr(env, [P(LParen)] + Toks(e)).1
  {
    var s := [P(LParen)] + Toks(e);
    assert s[1..] == Toks(e) + [];
    hide Toks, Reading, Jams, Lp, Conditional, WellFormed, IfExpr;
    EvaluatorReads(env, 12, e, [], Drop1(Start(s)));
    assert Ev(env, 0, Start(s)) == Primary(env, Start(s));
    EvUnary(env, Start(s));
    hide Ev;
    LineError(env, 1, s);
  }

  /** A binary operator with nothing behind it. */
  lemma MissingOperand(env: Env, e: Expr, op: BinOp)
    requires WellFormed(e) && !Jams(env, e) && Lvl(e) <= Level(op) && !(Level(op) == 2 && ZeroDiv(env, e))
    ensures IfExpr(env, Toks(e) + [P(Op(op))]).1
  {
    hide Toks, Reading, Jams, WellFormed, Ready, Conditional, CodeOp, IfExpr, Ev, Lp, After, ZeroDiv;
    var (f, k, d) := ([P(Op(op))], Level(op), Reading(env, e));
    var s := Toks(e) + f;
    FirstToken(e);
    assert s[0] == Toks(e)[0];
    OperatorReady(env, e, op);
    Run(env, k, e, f, Start(s));
    var c1 := After(Start(s), f, d.errs);
    AfterRest(Start(s), f, d.errs);
    NothingBehind(env, k - 1, Drop1(c1));
    LpOpStep(env, k, d.v, c1);
    LineError(env, k, s);
  }

  lemma OperatorReady(env: Env, e: Expr, op: BinOp)
    requires WellFormed(e) && !Jams(env, e) && Lvl(e) <= Level(op) && !(Level(op) == 2 && ZeroDiv(env, e))
    ensures Ready(env, Level(op), e, [P(Op(op))])
  {
    hide Reading, Toks;
  }

  lemma {:induction false} NothingBehind(env: Env, k: nat, c: Ctx)
    requires 1 <= k <= 11 && c.rest == []
    ensures Ev(env, k, c).1.hadError
  {
    hide CodeOp, Lp;
    if k > 1 {
      NothingBehind(env, k - 1, c);
      EvUp(env, k, c);
    } else {
      assert Ev(env, 0, c) == Primary(env, c);
    }
  }

  /** A token that no operand starts with. */
  lemma StrayToken(env: Env, p: Punct, f: seq<Tok>)
    requires p !in {LParen, Comma, Tilde, Bang, Op(Add), Op(Sub)}
    ensures IfExpr(env, [P(p)] + f).1
  {
    var s := [P(p)] + f;
    hide CodeOp, Lp, Conditional, IfExpr;
    assert Ev(env, 0, Start(s)) == Primary(env, Start(s));
    EvUnary(env, Start(s));
    LineError(env, 1, s);
  }

  /** `defined` without a name, or with a parenthesis that is not closed. */
  lemma DefinedErrors(env: Env, x: string)
    ensures IfExpr(env, [Ident("defined")]).1
    ensures IfExpr(env, [Ident("defined"), PpNumber(x)]).1
    ensures IfExpr(env, [Ident("defined"), P(LParen), Ident(x)]).1
  {
    DefinedError(env, [Ident("defined")]);
    DefinedError(env, [Ident("defined"), PpNumber(x)]);
    DefinedError(env, [Ident("defined"), P(LParen), Ident(x)]);
  }

  lemma DefinedError(env: Env, s: seq<Tok>)
    requires s != [] && s[0] == Ident("defined") && DefinedOp(env, Drop1(Start(s))).1.hadError
    ensures IfExpr(env, s).1
  {
    hide CodeOp, Lp, Conditional, IfExpr, DefinedOp;
    assert Ev(env, 0, Start(s)) == Primary(env, Start(s));
    EvUnary(env, Start(s));
    LineError(env, 1, s);
  }

  // ---- calls ----

  /** Inside a parenthesis, skipping to the one that closes it passes the tokens of a tree. */
  lemma {:induction false} SkipTree(e: Expr, f: seq<Tok>, d: nat)
    requires d > 0
    ensures SkipCall(Toks(e) + f, d) == SkipCall(f, d)
  {
    hide SkipCall;
    match e {
      case Paren(x) =>
        ParenToks(x, f);
        SkipOne(P(LParen), Toks(x) + ([P(RParen)] + f), d);
        SkipTree(x, [P(RParen)] + f, d + 1);
        SkipOne(P(RParen), f, d + 1);
      case Unary(op, x) =>
        assert Toks(e) + f == [UnTok(op)] + (Toks(x) + f);
        SkipOne(UnTok(op), Toks(x) + f, d);
        SkipTree(x, f, d);
      case Cond(c, a, b) =>
        CondToks(e, f);
        SkipTree(c, [P(Question)] + (Toks(a) + ([P(Colon)] + (Toks(b) + f))), d);
        SkipOne(P(Question), Toks(a) + ([P(Colon)] + (Toks(b) + f)), d);
        SkipTree(a, [P(Colon)] + (Toks(b) + f), d);
        SkipOne(P(Colon), Toks(b) + f, d);
        SkipTree(b, f, d);
      case Defined(id, parens) => SkipDefinedCall(id, parens, f, d);
      case Number(_) => SkipOne(Toks(e)[0], f, d);
      case Char(_, _) => SkipOne(Toks(e)[0], f, d);
      case Name(_) => SkipOne(Toks(e)[0], f, d);
      case _ =>
        BinaryToks(e, f);
        SkipTree(e.l, [Between(e)] + (Toks(e.r) + f), d);
        SkipOne(Between(e), Toks(e.r) + f, d);
        SkipTree(e.r, f, d);
    }
  }

  lemma SkipOne(t: Tok, s: seq<Tok>, d: nat)
    requires d > 0
    ensures SkipCall([t] + s, d) == SkipCall(s, if t == P(LParen) then d + 1 else if t == P(RParen) then d - 1 else d)
  {
    assert ([t] + s)[1..] == s;
  }

  lemma SkipDefinedCall(id: string, parens: bool, f: seq<Tok>, d: nat)
    requires d > 0
    ensures SkipCall(Toks(Defined(id, parens)) + f, d) == SkipCall(f, d)
  {
    hide SkipCall;
    if parens {
      assert Toks(Defined(id, parens)) + f == [Ident("defined")] + ([P(LParen)] + ([Ident(id)] + ([P(RParen)] + f)));
      SkipOne(Ident("defined"), [P(LParen)] + ([Ident(id)] + ([P(RParen)] + f)), d);
      SkipOne(P(LParen), [Ident(id)] + ([P(RParen)] + f), d);
      SkipOne(Ident(id), [P(RParen)] + f, d + 1);
      SkipOne(P(RParen), f, d + 1);
    } else {
      assert Toks(Defined(id, parens)) + f == [Ident("defined")] + ([Ident(id)] + f);
      SkipOne(Ident("defined"), [Ident(id)] + f, d);
      SkipOne(Ident(id), f, d);
    }
  }

  /** The tokens of a call. */
  function Call(name: string, arg: Expr): seq<Tok> { [Ident(name)] + ([P(LParen)] + (Toks(arg) + [P(RParen)])) }

  /** What a call leaves to be read: nothing; and at the end of the line every level keeps the value. */
  lemma {:induction false} EndOfLine(env: Env, k: nat, v: Value, s: seq<Tok>)
    requires 1 <= k <= 12 && s != [] && s[0].Ident? && Ev(env, 0, Start(s)) == (v, Start([]))
    ensures Ev(env, k, Start(s)) == (v, Start([]))
  {
    hide CodeOp, Primary, Arms;
    if k == 1 {
      EvUnary(env, Start(s));
    } else {
      EndOfLine(env, k - 1, v, s);
      LpStops(env, k, v, Start([]));
      if k == 12 { LastLevel(env, v, Start([]), Start(s)); } else { EvUp(env, k, Start(s)); }
    }
  }

  /** A name that is no macro, called with balanced arguments, is 0. */
  lemma UnknownCall(env: Env, name: string, arg: Expr)
    requires name != "defined" && name !in HAS_OPERATORS
    ensures IfExpr(env, Call(name, arg)) == (Value(0, false), false)
  {
    var s := Call(name, arg);
    var t := Toks(arg) + [P(RParen)];
    assert s[1..] == [P(LParen)] + t && ([P(LParen)] + t)[1..] == t;
    SkipTree(arg, [P(RParen)], 1);
    SkipOne(P(RParen), [], 1);
    assert [P(RParen)] + [] == [P(RParen)];
    hide Toks, Lp, Conditional, CodeOp;
    assert Ev(env, 0, Start(s)) == Primary(env, Start(s)) == (Value(0, false), Start([]));
    EndOfLine(env, 12, Value(0, false), s);
  }

  /** An operator that has a table asks it about its argument, with and without underscores around. */
  lemma HasLine(env: Env, name: string, arg: string, plain: string)
    requires name in {"__has_builtin", "__has_feature", "__has_extension", "__has_attribute"}
    requires 0 < |plain| < 128 && (arg == "__" + plain + "__" || (arg == plain && !(|plain| > 4 && "__" <= plain)))
    ensures IfExpr(env, Call(name, Name(arg))) == (Value(if (name, plain) in env.tables then 1 else 0, false), false)
  {
    Underscores(arg, plain);
    HasCall(env, name, arg);
    hide StripUnderscores;
    var v := Bool((name, plain) in env.tables);
    EndOfLine(env, 12, v, Call(name, Name(arg)));
  }

  lemma Underscores(arg: string, plain: string)
    requires 0 < |plain| < 128 && (arg == "__" + plain + "__" || (arg == plain && !(|plain| > 4 && "__" <= plain)))
    ensures StripUnderscores(arg) == plain
  {
    if arg == "__" + plain + "__" {
      assert arg[..2] == "__" && arg[|arg| - 2..] == "__" && arg[2..|arg| - 2] == plain;
    } else if |arg| > 4 {
      assert arg[..2] != "__";
    }
  }

  lemma HasCall(env: Env, name: string, arg: string)
    requires name in HAS_OPERATORS
    ensures Ev(env, 0, Start(Call(name, Name(arg))))
              == (Bool(name !in WITHOUT_TABLE && (name, StripUnderscores(arg)) in env.tables), Start([]))
  {
    var s := Call(name, Name(arg));
    assert s == [Ident(name), P(LParen), Ident(arg), P(RParen)];
    assert s[1..] == [P(LParen), Ident(arg), P(RParen)] && s[1..][2..] == [P(RParen)];
    assert [P(RParen)] + [] == [P(RParen)];
    SkipOne(P(RParen), [], 1);
    hide StripUnderscores, Toks, Call, Lp, Conditional;
    assert Ev(env, 0, Start(s)) == Primary(env, Start(s));
  }

  /** The operators for the attributes of C and C++ are always 0. */
  lemma NoTableLine(env: Env, name: string, arg: string)
    requires name in {"__has_c_attribute", "__has_cpp_attribute"}
    ensures IfExpr(env, Call(name, Name(arg))) == (Value(0, false), false)
  {
    HasCall(env, name, arg);
    EndOfLine(env, 12, Bool(false), Call(name, Name(arg)));
  }

  // ---- what else the evaluator takes ----

  /** The comma operator: the errors of both operands, and the value of the last. */
  lemma CommaLine(env: Env, a: Expr, b: Expr)
    requires WellFormed(a) && WellFormed(b) && Lvl(a) <= 11 && Lvl(b) <= 11 && !Jams(env, a) && !Jams(env, b)
    ensures var (da, db) := (Reading(env, a), Reading(env, b));
            IfExpr(env, Toks(a) + ([P(Comma)] + Toks(b))) == (db.v, da.errs + db.errs > 0)
  {
    var (f, s) := ([P(Comma)] + Toks(b), Toks(a) + ([P(Comma)] + Toks(b)));
    var (da, db) := (Reading(env, a), Reading(env, b));
    FirstToken(a);
    assert s[0] == Toks(a)[0] && f[1..] == Toks(b) + [];
    hide Toks, Reading, Jams, WellFormed, Lvl, CodeOp, Arms, Ev, Lp;
    var c1 := After(Start(s), f, da.errs);
    EvaluatorReads(env, 11, a, f, Start(s));
    EvaluatorReads(env, 11, b, [], Drop1(c1));
    var c2 := After(Drop1(c1), [], db.errs);
    LpStops(env, 12, db.v, c2);
    CommaStep(env, Start(s), da.v, c1, db.v, c2);
  }

  lemma CommaStep(env: Env, c: Ctx, v: Value, c1: Ctx, w: Value, c2: Ctx)
    requires !Next(c.rest, Comma) && Ev(env, 11, c) == (v, c1) && Next(c1.rest, Comma) && |c1.rest| > 1
    requires Ev(env, 11, Drop1(c1)) == (w, c2) && Lp(env, 12, w, c2) == (w, c2)
    ensures Ev(env, 12, c) == (w, c2)
  {
    ConditionalRest(env, c, v, c1);
    LpComma(env, v, c1);
    hide Ev, Lp;
  }

  lemma ConditionalRest(env: Env, c: Ctx, v: Value, c1: Ctx)
    requires !Next(c.rest, Comma) && Ev(env, 11, c) == (v, c1) && !Next(c1.rest, Question)
    ensures Ev(env, 12, c) == Lp(env, 12, v, c1)
  {
    assert Ev(env, 12, c) == Conditional(env, c);
    hide Ev, Lp, Arms;
  }

  lemma LpComma(env: Env, v: Value, c: Ctx)
    requires Next(c.rest, Comma) && |c.rest| > 1
    ensures Lp(env, 12, v, c) == Lp(env, 12, Ev(env, 11, Drop1(c)).0, Ev(env, 11, Drop1(c)).1)
  {
    hide CodeOp;
  }

  /** A comma in front of an expression is passed over. */
  lemma LeadingComma(env: Env, a: Expr)
    requires WellFormed(a) && Lvl(a) <= 11 && !Jams(env, a)
    ensures IfExpr(env, [P(Comma)] + Toks(a)) == (Reading(env, a).v, Reading(env, a).errs > 0)
  {
    var (s, d) := ([P(Comma)] + Toks(a), Reading(env, a));
    assert s[1..] == Toks(a) + [];
    hide Toks, Reading, Jams, WellFormed, Lvl, CodeOp, Arms;
    EvaluatorReads(env, 11, a, [], Drop1(Start(s)));
    LpStops(env, 12, d.v, After(Drop1(Start(s)), [], d.errs));
    assert Ev(env, 12, Start(s)) == Conditional(env, Start(s));
    hide Ev;
  }

  /** A conditional whose condition is true needs no colon and no second arm. */
  lemma MissingColon(env: Env, c: Expr, a: Expr)
    requires WellFormed(c) && WellFormed(a) && Lvl(c) <= 11 && !Jams(env, c) && !Jams(env, a)
    requires !EndsSkipped(env, c) && Reading(env, c).v.v != 0
    ensures var (dc, da) := (Reading(env, c), Reading(env, a));
            IfExpr(env, Toks(c) + ([P(Question)] + Toks(a))) == (da.v, dc.errs + da.errs > 0)
  {
    var (f, s) := ([P(Question)] + Toks(a), Toks(c) + ([P(Question)] + Toks(a)));
    var (dc, da) := (Reading(env, c), Reading(env, a));
    FirstToken(c);
    assert s[0] == Toks(c)[0] && f[1..] == Toks(a) + [];
    hide Toks, Reading, Jams, WellFormed, Lvl, CodeOp, EndsSkipped, Ev, Arms, Select;
    var c1 := After(Start(s), f, dc.errs);
    EvaluatorReads(env, 11, c, f, Start(s));
    EvaluatorReads(env, 12, a, [], Drop1(c1));
    var c2 := After(Drop1(c1), [], da.errs);
    NothingLeft(env, c2.(suppress := true));
    ConditionalIs(env, Start(s), dc.v, c1);
    ArmsAlone(env, c1, da.v, c2);
  }

  lemma ArmsAlone(env: Env, c: Ctx, v: Value, c2: Ctx)
    requires Next(c.rest, Question) && Ev(env, 12, Drop1(c)) == (v, c2) && c2.rest == [] && c2.suppress == c.suppress
    requires Ev(env, 12, c2.(suppress := true)) == (Value(0, false), c2.(suppress := true, hadError := true))
    ensures Arms(env, true, c) == (v, c2)
  {
    hide Ev;
  }

  lemma NothingLeft(env: Env, c: Ctx)
    requires c.rest == []
    ensures Ev(env, 12, c) == (Value(0, false), c.(hadError := true))
  {
    NothingBelow(env, 11, c);
    var c1 := c.(hadError := true);
    LpStops(env, 12, Value(0, false), c1);
    LastLevel(env, Value(0, false), c1, c);
  }

  lemma {:induction false} NothingBelow(env: Env, k: nat, c: Ctx)
    requires 1 <= k <= 11 && c.rest == []
    ensures Ev(env, k, c) == (Value(0, false), c.(hadError := true))
  {
    hide CodeOp, Conditional;
    var c1 := c.(hadError := true);
    if k > 1 {
      NothingBelow(env, k - 1, c);
      EvUp(env, k, c);
      LpStops(env, k, Value(0, false), c1);
    } else {
      assert Ev(env, 0, c) == Primary(env, c);
    }
  }
}
