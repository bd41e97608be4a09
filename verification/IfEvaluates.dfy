/** The evaluator computes the reading of every tree on which it does not get out of step, and stops
    exactly behind its tokens. */
module IfEvaluates {
  import opened Bits
  import opened IntMax
  import opened IntLiteral
  import opened IfEval
  import opened IfTrees
  import opened Options

  /** The follow condition of the induction: at levels 2 to 11 the loop of the level may go on. */
  predicate Ends(k: nat, f: seq<Tok>) {
    FollowOK(if k == 0 then 1 else if k == 12 then 12 else if k == 1 then 1 else k - 1, f)
  }

  /** The state after a phrase with n errors, in front of f. */
  function After(c: Ctx, f: seq<Tok>, n: nat): Ctx {
    Ctx(f, c.hadError || n > 0, if c.suppress then c.diags else c.diags + n, c.suppress)
  }

  lemma ErrorsAre(c: Ctx, n: nat)
    ensures Errors(c, n) == After(c, c.rest, n)
  {}

  /** The hypotheses of the induction for a phrase e at level k, in front of f. */
  predicate Ready(env: Env, k: nat, e: Expr, f: seq<Tok>) {
    && WellFormed(e) && Lvl(e) <= k <= 12 && !Jams(env, e) && Ends(k, f)
    && (Next(f, Question) ==> !EndsSkipped(env, e))
    && (k == 2 && ZeroDiv(env, e) ==> FollowOK(2, f))
  }

  /** The evaluator at level k takes exactly the phrase e: at levels 2 to 11 it is then in the
      level's loop with the value of e. */
  predicate Runs(env: Env, k: nat, e: Expr, f: seq<Tok>, c: Ctx)
    requires k <= 12
  {
    var d := Reading(env, e);
    Ev(env, k, c) == if 2 <= k <= 11 then Lp(env, k, d.v, After(c, f, d.errs)) else (d.v, After(c, f, d.errs))
  }

  lemma FollowsDown(j: nat, k: nat, f: seq<Tok>)
    requires j <= k && FollowOK(k, f)
    ensures FollowOK(j, f)
  {}

  lemma LpStops(env: Env, k: nat, v: Value, c: Ctx)
    requires 2 <= k <= 12 && FollowOK(k, c.rest)
    ensures Lp(env, k, v, c) == (v, c)
  {}

  lemma FirstToken(e: Expr)
    ensures Toks(e)[0] != P(Comma)
    ensures Lvl(e) == 0 ==> !(Toks(e)[0].P? && Toks(e)[0].p in {Op(Add), Op(Sub), Tilde, Bang})
  {}

  lemma ErrorsAdd(c: Ctx, m: nat, n: nat)
    ensures Errors(Errors(c, m), n) == Errors(c, m + n)
  {}

  lemma AfterAfter(c: Ctx, g: seq<Tok>, f: seq<Tok>, m: nat, n: nat)
    ensures After(After(c, g, m), f, n) == After(c, f, m + n)
    ensures After(c, g, m).(rest := f) == After(c, f, m)
    ensures After(c, g, m).rest == g
    ensures g != [] ==> Drop1(After(c, g, m)) == After(c, g[1..], m)
  {}

  lemma AfterDrop(c: Ctx, f: seq<Tok>, n: nat)
    requires c.rest != []
    ensures After(Drop1(c), f, n) == After(c, f, n) && After(c, f, 0) == c.(rest := f)
  {}

  lemma {:induction false} Run(env: Env, k: nat, e: Expr, f: seq<Tok>, c: Ctx)
    requires Ready(env, k, e, f) && c.rest == Toks(e) + f
    ensures Runs(env, k, e, f, c)
    decreases Size(e), k, 3
  {
    hide Reading, Jams, Toks, WellFormed;
    if Lvl(e) < k {
      Climb(env, k, e, f, c);
    } else {
      match e {
        case Unary(_, _) => RunUnary(env, e, f, c);
        case Binary(_, _, _) => RunBinary(env, e, f, c);
        case LAnd(_, _) => RunLAnd(env, e, f, c);
        case LOr(_, _) => RunLOr(env, e, f, c);
        case Cond(_, _, _) => RunCond(env, e, f, c);
        case _ => RunPrimary(env, e, f, c);
      }
    }
  }

  /** A phrase of a lower level, seen from level k. */
  lemma {:induction false} Climb(env: Env, k: nat, e: Expr, f: seq<Tok>, c: Ctx)
    requires Ready(env, k, e, f) && c.rest == Toks(e) + f && Lvl(e) < k
    ensures Runs(env, k, e, f, c)
    decreases Size(e), k, 0
  {
    hide Reading, Jams, Ready, Toks, WellFormed, EndsSkipped, Ev, Lp, Errors, After;
    ReadyBelow(env, k, e, f);
    var d := Reading(env, e);
    var c1 := After(c, f, d.errs);
    AfterAfter(c, f, f, d.errs, 0);
    FirstToken(e);
    assert c.rest[0] == Toks(e)[0];
    Run(env, k - 1, e, f, c);
    if k == 1 {
      EvUnary(env, c);
    } else {
      if k >= 3 {
        LpStops(env, k - 1, d.v, c1);
      }
      if k == 12 {
        LpStops(env, 12, d.v, c1);
        LastLevel(env, d.v, c1, c);
      } else {
        EvUp(env, k, c);
      }
    }
  }

  /** The hypotheses go down to the level of the phrase. */
  lemma ReadyBelow(env: Env, k: nat, e: Expr, f: seq<Tok>)
    requires Ready(env, k, e, f) && Lvl(e) < k
    ensures Ready(env, k - 1, e, f) && (k == 1 ==> Lvl(e) == 0)
    ensures k <= 12 && (k >= 3 ==> FollowOK(k - 1, f)) && (k == 12 ==> FollowOK(12, f) && !Next(f, Question))
  {
    hide Reading, Toks;
  }

  lemma EvUp(env: Env, k: nat, c: Ctx)
    requires 2 <= k <= 11
    ensures Ev(env, k, c) == Lp(env, k, Ev(env, k - 1, c).0, Ev(env, k - 1, c).1)
  {
    hide Lp, Conditional, Primary;
  }

  /** The conditional level on a phrase without `?` and `,` around it. */
  lemma LastLevel(env: Env, v: Value, c1: Ctx, c: Ctx)
    requires !Next(c.rest, Comma) && Ev(env, 11, c) == (v, c1) && Lp(env, 12, v, c1) == (v, c1) && !Next(c1.rest, Question)
    ensures Ev(env, 12, c) == (v, c1)
  {
    assert Ev(env, 12, c) == Conditional(env, c);
    hide Ev, Lp, Arms;
  }

  lemma {:induction false} RunPrimary(env: Env, e: Expr, f: seq<Tok>, c: Ctx)
    requires Ready(env, 0, e, f) && c.rest == Toks(e) + f
    ensures Runs(env, 0, e, f, c)
    decreases Size(e), 0, 2
  {
    hide CodeOp, Lp, Conditional, Arms;
    if e.Paren? {
      RunParen(env, e, f, c);
    } else if e.Defined? {
      RunDefined(env, e.id, e.parens, f, c);
    } else {
      assert Ev(env, 0, c) == Primary(env, c);
      assert Drop1(c).rest == f && !Next(f, LParen);
    }
  }

  lemma ParenToks(e: Expr, f: seq<Tok>)
    ensures Toks(Paren(e)) + f == [P(LParen)] + (Toks(e) + ([P(RParen)] + f))
    ensures ([P(LParen)] + (Toks(e) + ([P(RParen)] + f)))[1..] == Toks(e) + ([P(RParen)] + f) && ([P(RParen)] + f)[1..] == f
  {}

  lemma {:induction false} RunParen(env: Env, e: Expr, f: seq<Tok>, c: Ctx)
    requires e.Paren? && Ready(env, 0, e, f) && c.rest == Toks(e) + f
    ensures Runs(env, 0, e, f, c)
    decreases Size(e), 0, 1
  {
    var g := [P(RParen)] + f;
    ParenToks(e.e, f);
    assert Ready(env, 12, e.e, g);
    assert Reading(env, e) == Reading(env, e.e) && Size(e.e) < Size(e);
    hide CodeOp, Lp, Conditional, Arms, Toks, Ready, Jams, WellFormed, EndsSkipped, Reading, Size;
    assert Ev(env, 0, c) == Primary(env, c);
    Run(env, 12, e.e, g, Drop1(c));
  }

  lemma RunDefined(env: Env, id: string, parens: bool, f: seq<Tok>, c: Ctx)
    requires FollowOK(1, f) && c.rest == Toks(Defined(id, parens)) + f
    ensures Ev(env, 0, c) == (Bool(IsDefined(env, id)), c.(rest := f))
  {
    hide CodeOp, Lp, Conditional;
    var c1 := Drop1(c);
    if parens {
      assert c1.rest[1..] == [Ident(id)] + ([P(RParen)] + f);
      assert c1.rest[2..] == [P(RParen)] + f;
      assert c1.rest[3..] == f;
    } else {
      assert c1.rest == [Ident(id)] + f;
      assert c1.rest[1..] == f;
    }
  }

  lemma {:induction false} RunUnary(env: Env, e: Expr, f: seq<Tok>, c: Ctx)
    requires e.Unary? && Ready(env, 1, e, f) && c.rest == Toks(e) + f
    ensures Runs(env, 1, e, f, c)
    decreases Size(e), 1, 2
  {
    hide Ev, Toks, Reading, Jams, WellFormed, EndsSkipped, Ready;
    UnaryParts(env, e, f);
    var c1 := Drop1(c);
    var (d, u) := (Reading(env, e.e), ReadUn(e.uop, Reading(env, e.e).v));
    Run(env, 1, e.e, f, c1);
    EvUnary(env, c);
    ErrorsAdd(c1.(rest := f), d.errs, u.errs);
  }

  lemma UnaryParts(env: Env, e: Expr, f: seq<Tok>)
    requires e.Unary? && Ready(env, 1, e, f)
    ensures Toks(e) + f == [UnTok(e.uop)] + (Toks(e.e) + f) && (Toks(e) + f)[1..] == Toks(e.e) + f
    ensures Ready(env, 1, e.e, f) && Size(e.e) < Size(e)
    ensures var (d, u) := (Reading(env, e.e), ReadUn(e.uop, Reading(env, e.e).v));
            Reading(env, e) == Den(u.v, d.errs + u.errs)
  {
    hide ReadUn;
  }

  lemma EvUnary(env: Env, c: Ctx)
    ensures Ev(env, 1, c) ==
              if Next(c.rest, Op(Add)) then Ev(env, 1, Drop1(c))
              else if Next(c.rest, Op(Sub)) then
                var (x, c1) := Ev(env, 1, Drop1(c)); (CodeNeg(x).val, Errors(c1, CodeNeg(x).errs))
              else if Next(c.rest, Tilde) then
                var (x, c1) := Ev(env, 1, Drop1(c)); (CodeNot(x), c1)
              else if Next(c.rest, Bang) then
                var (x, c1) := Ev(env, 1, Drop1(c)); (Bool(x.v == 0), c1)
              else Ev(env, 0, c)
  {
    hide CodeNeg, CodeNot, Errors;
  }

  // ---- binary phrases ----

  /** The left operand of a binary phrase, in front of its operator t. */
  lemma {:induction false} RunLeft(env: Env, e: Expr, l: Expr, t: Tok, g: seq<Tok>, c: Ctx)
    requires 2 <= Lvl(e) <= 11 && Size(l) < Size(e) && Ready(env, Lvl(e), l, [t] + g)
    requires c.rest == Toks(l) + ([t] + g)
    ensures Ev(env, Lvl(e), c) == Lp(env, Lvl(e), Reading(env, l).v, After(c, [t] + g, Reading(env, l).errs))
    decreases Size(e), Lvl(e), 0
  {
    Run(env, Lvl(e), l, [t] + g, c);
  }

  /** The right operand, one level down. */
  lemma {:induction false} RunRight(env: Env, e: Expr, r: Expr, f: seq<Tok>, c: Ctx)
    requires 2 <= Lvl(e) <= 11 && Size(r) < Size(e) && Lvl(r) < Lvl(e) && WellFormed(r) && !Jams(env, r)
    requires FollowOK(Lvl(e) - 1, f) && (Next(f, Question) ==> !EndsSkipped(env, r))
    requires c.rest == Toks(r) + f
    ensures Ev(env, Lvl(e) - 1, c) == (Reading(env, r).v, After(c, f, Reading(env, r).errs))
    decreases Size(e), Lvl(e), 0
  {
    hide Reading, Jams, Toks, CodeOp;
    var k := Lvl(e) - 1;
    FollowsDown(if k >= 2 then k - 1 else 1, k, f);
    Run(env, k, r, f, c);
    if k >= 2 {
      LpStops(env, k, Reading(env, r).v, After(c, f, Reading(env, r).errs));
    }
  }

  lemma StopIsZeroDiv(op: BinOp, v: Value, r: Value)
    ensures CodeOp(op, v, r).stop <==> op in {Div, Rem} && r.v == 0
  {}

  lemma ReadingOfTwo(env: Env, e: Expr)
    requires e.Binary? || e.LAnd? || e.LOr?
    ensures var (d, dl, dr) := (Reading(env, e), Reading(env, e.l), Reading(env, e.r));
            if e.Binary? then
              d == Den(CodeOp(e.op, dl.v, dr.v).val, dl.errs + dr.errs + CodeOp(e.op, dl.v, dr.v).errs)
            else if (dl.v.v == 0) == e.LAnd? then d == Den(Bool(e.LOr?), dl.errs)
            else d == Den(Bool(dr.v.v != 0), dl.errs + dr.errs)
    ensures Size(e.l) < Size(e) && Size(e.r) < Size(e)
  {
    hide CodeOp;
  }

  lemma LeftReady(env: Env, e: Expr, f: seq<Tok>, g: seq<Tok>)
    requires (e.Binary? || e.LAnd? || e.LOr?) && Ready(env, Lvl(e), e, f)
    ensures 2 <= Lvl(e) <= 11 && Ready(env, Lvl(e), e.l, [Between(e)] + g)
  {
    hide Reading, Toks;
  }

  /** When the right operand is evaluated, it satisfies the hypotheses one level down. */
  lemma RightReady(env: Env, e: Expr, f: seq<Tok>)
    requires (e.Binary? || e.LAnd? || e.LOr?) && Ready(env, Lvl(e), e, f)
    requires e.LAnd? ==> Reading(env, e.l).v.v != 0
    requires e.LOr? ==> Reading(env, e.l).v.v == 0
    ensures 2 <= Lvl(e) <= 11 && Lvl(e.r) < Lvl(e) && WellFormed(e.r) && !Jams(env, e.r)
    ensures FollowOK(Lvl(e) - 1, f) && (Next(f, Question) ==> !EndsSkipped(env, e.r))
  {
    hide Reading, Toks;
  }

  lemma {:induction false} RunBinary(env: Env, e: Expr, f: seq<Tok>, c: Ctx)
    requires e.Binary? && Ready(env, Lvl(e), e, f) && c.rest == Toks(e) + f
    ensures Runs(env, Lvl(e), e, f, c)
    decreases Size(e), Lvl(e), 2
  {
    hide CodeOp, Ev, Lp, Errors, After, Toks, Ready, Jams, WellFormed, EndsSkipped, Reading;
    LeftReady(env, e, f, Toks(e.r) + f);
    ReadingOfTwo(env, e);
    BinaryToks(e, f);
    var (g, t) := (Toks(e.r) + f, Between(e));
    RunLeft(env, e, e.l, t, g, c);
    var (dl, dr) := (Reading(env, e.l), Reading(env, e.r));
    var c1 := After(c, [t] + g, dl.errs);
    AfterAfter(c, [t] + g, f, dl.errs, dr.errs + CodeOp(e.op, dl.v, dr.v).errs);
    LpBinary(env, e, f, c1);
  }

  lemma {:induction false} LpBinary(env: Env, e: Expr, f: seq<Tok>, c: Ctx)
    requires e.Binary? && Ready(env, Lvl(e), e, f)
    requires Next(c.rest, Op(e.op)) && c.rest[1..] == Toks(e.r) + f
    ensures var (dl, dr) := (Reading(env, e.l), Reading(env, e.r));
            var s := CodeOp(e.op, dl.v, dr.v);
            Lp(env, Lvl(e), dl.v, c) == Lp(env, Lvl(e), s.val, After(c, f, dr.errs + s.errs))
    decreases Size(e), Lvl(e), 1
  {
    hide CodeOp, Reading, Jams, Toks, Ready, EndsSkipped, WellFormed, Ev, Lp, Errors, FollowOK, Size;
    var (dl, dr) := (Reading(env, e.l), Reading(env, e.r));
    var s := CodeOp(e.op, dl.v, dr.v);
    var c3 := After(c, f, dr.errs + s.errs);
    RightReady(env, e, f);
    ReadingOfTwo(env, e);
    RunRight(env, e, e.r, f, Drop1(c));
    ErrorsAre(After(Drop1(c), f, dr.errs), s.errs);
    LpOpStep(env, Lvl(e), dl.v, c);
    AfterRest(c, f, dr.errs + s.errs);
    if s.stop {
      StopIsZeroDiv(e.op, dl.v, dr.v);
      StopFollow(env, e, f);
      LpStops(env, Lvl(e), s.val, c3);
    }
  }

  lemma LpOpStep(env: Env, k: nat, v: Value, c: Ctx)
    requires 2 <= k <= 9 && NextIsOp(c.rest, k)
    ensures var (r, c1) := Ev(env, k - 1, Drop1(c));
            var s := CodeOp(c.rest[0].p.op, v, r);
            Lp(env, k, v, c) == if s.stop then (s.val, Errors(c1, s.errs)) else Lp(env, k, s.val, Errors(c1, s.errs))
  {
    hide CodeOp;
  }

  lemma StopFollow(env: Env, e: Expr, f: seq<Tok>)
    requires e.Binary? && Ready(env, Lvl(e), e, f) && e.op in {Div, Rem} && Reading(env, e.r).v.v == 0
    ensures Lvl(e) == 2 && FollowOK(2, f)
  {
    hide Reading;
  }

  lemma {:induction false} RunLAnd(env: Env, e: Expr, f: seq<Tok>, c: Ctx)
    requires e.LAnd? && Ready(env, 10, e, f) && c.rest == Toks(e) + f
    ensures Runs(env, 10, e, f, c)
    decreases Size(e), 10, 2
  {
    hide CodeOp, Ev, Lp, Errors, After, Toks, Ready, Jams, WellFormed, EndsSkipped, Reading;
    LeftReady(env, e, f, Toks(e.r) + f);
    ReadingOfTwo(env, e);
    BinaryToks(e, f);
    var (g, t) := (Toks(e.r) + f, Between(e));
    RunLeft(env, e, e.l, t, g, c);
    var (dl, dr) := (Reading(env, e.l), Reading(env, e.r));
    var c1 := After(c, [t] + g, dl.errs);
    AfterAfter(c, [t] + g, f, dl.errs, dr.errs);
    LpLAnd(env, e, f, c1);
  }

  lemma {:induction false} LpLAnd(env: Env, e: Expr, f: seq<Tok>, c: Ctx)
    requires e.LAnd? && Ready(env, 10, e, f)
    requires Next(c.rest, AndAnd) && c.rest[1..] == Toks(e.r) + f
    ensures var (dl, dr) := (Reading(env, e.l), Reading(env, e.r));
            Lp(env, 10, dl.v, c) ==
              if dl.v.v == 0 then Lp(env, 10, Bool(false), c.(rest := f))
              else Lp(env, 10, Bool(dr.v.v != 0), After(c, f, dr.errs))
    decreases Size(e), 10, 1
  {
    ReadingOfTwo(env, e);
    if Reading(env, e.l).v.v == 0 {
      assert WellFormed(e.r) && Lvl(e.r) <= 9 && FollowOK(9, f) && !Next(f, Question);
      hide Reading, Jams, Toks, Ready, SkipExpr, CodeOp;
      SkipPhrase(e.r, f, 0, 0);
      SkipStops(f);
    } else {
      hide Reading, Jams, Toks, Ready, EndsSkipped, WellFormed, CodeOp, After, Lvl, FollowOK, Ev, SkipExpr, SkipLogAnd;
      RightReady(env, e, f);
      RunRight(env, e, e.r, f, Drop1(c));
      AfterDrop(c, f, Reading(env, e.r).errs);
    }
  }

  lemma {:induction false} RunLOr(env: Env, e: Expr, f: seq<Tok>, c: Ctx)
    requires e.LOr? && Ready(env, 11, e, f) && c.rest == Toks(e) + f
    ensures Runs(env, 11, e, f, c)
    decreases Size(e), 11, 2
  {
    hide CodeOp, Ev, Lp, Errors, After, Toks, Ready, Jams, WellFormed, EndsSkipped, Reading;
    LeftReady(env, e, f, Toks(e.r) + f);
    ReadingOfTwo(env, e);
    BinaryToks(e, f);
    var (g, t) := (Toks(e.r) + f, Between(e));
    RunLeft(env, e, e.l, t, g, c);
    var (dl, dr) := (Reading(env, e.l), Reading(env, e.r));
    var c1 := After(c, [t] + g, dl.errs);
    AfterAfter(c, [t] + g, f, dl.errs, dr.errs);
    LpLOr(env, e, f, c1);
  }

  lemma {:induction false} LpLOr(env: Env, e: Expr, f: seq<Tok>, c: Ctx)
    requires e.LOr? && Ready(env, 11, e, f)
    requires Next(c.rest, OrOr) && c.rest[1..] == Toks(e.r) + f
    ensures var (dl, dr) := (Reading(env, e.l), Reading(env, e.r));
            Lp(env, 11, dl.v, c) ==
              if dl.v.v != 0 then Lp(env, 11, Bool(true), c.(rest := f))
              else Lp(env, 11, Bool(dr.v.v != 0), After(c, f, dr.errs))
    decreases Size(e), 11, 1
  {
    ReadingOfTwo(env, e);
    if Reading(env, e.l).v.v != 0 {
      assert WellFormed(e.r) && Lvl(e.r) <= 10 && FollowOK(10, f) && !Next(f, Question);
      hide Reading, Jams, Toks, Ready, SkipExpr, SkipLogAnd, CodeOp;
      SkipChain(e.r, f);
      SkipStops(f);
      SkipLogAndIs(f);
    } else {
      hide Reading, Jams, Toks, Ready, EndsSkipped, WellFormed, CodeOp, After, Lvl, FollowOK, Ev, SkipExpr, SkipLogAnd;
      RightReady(env, e, f);
      RunRight(env, e, e.r, f, Drop1(c));
      AfterDrop(c, f, Reading(env, e.r).errs);
    }
  }

  // ---- conditionals ----

  lemma {:induction false} RunCond(env: Env, e: Expr, f: seq<Tok>, c: Ctx)
    requires e.Cond? && Ready(env, 12, e, f) && c.rest == Toks(e) + f
    ensures Runs(env, 12, e, f, c)
    decreases Size(e), 12, 2
  {
    hide CodeOp, Arms, Errors, After, Lp, Ev, Jams, Toks, Reading, Ready, EndsSkipped, Size;
    if EndsSkipped(env, e.c) {
      RunSwallowed(env, e, f, c);
    } else {
      OpenReading(env, e);
      CondReady(env, e, f);
      var d := Reading(env, e.c);
      var g := RunCondition(env, e, f, c);
      AfterAfter(c, g, f, d.errs, Reading(env, if d.v.v != 0 then e.a else e.b).errs);
      RunArms(env, e, f, After(c, g, d.errs));
      ConditionalIs(env, c, d.v, After(c, g, d.errs));
    }
  }

  lemma CondReady(env: Env, e: Expr, f: seq<Tok>)
    requires e.Cond? && Ready(env, 12, e, f)
    ensures WellFormed(e) && !Jams(env, e.c)
  {
    hide Reading, Toks;
  }

  lemma ConditionalIs(env: Env, c: Ctx, v: Value, c1: Ctx)
    requires !Next(c.rest, Comma) && Ev(env, 11, c) == (v, c1) && Next(c1.rest, Question)
    ensures Ev(env, 12, c) == Arms(env, v.v != 0, c1)
  {
    assert Ev(env, 12, c) == Conditional(env, c);
    hide Ev, Arms, Lp;
  }

  lemma OpenReading(env: Env, e: Expr)
    requires e.Cond? && !EndsSkipped(env, e.c)
    ensures var (dc, da, db) := (Reading(env, e.c), Reading(env, e.a), Reading(env, e.b));
            var first := dc.v.v != 0;
            Reading(env, e) == Den(Select(first, da.v, db.v), dc.errs + (if first then da.errs else db.errs))
  {
    hide Select, EndsSkipped;
  }

  lemma ConditionReady(env: Env, e: Expr, f: seq<Tok>, g: seq<Tok>)
    requires e.Cond? && WellFormed(e) && !Jams(env, e.c) && !EndsSkipped(env, e.c) && Next(g, Question)
    ensures Ready(env, 11, e.c, g) && FollowOK(11, g) && Size(e.c) < Size(e)
  {
    hide Reading, Toks;
  }

  lemma {:induction false} RunCondition(env: Env, e: Expr, f: seq<Tok>, c: Ctx) returns (g: seq<Tok>)
    requires e.Cond? && WellFormed(e) && !Jams(env, e.c) && c.rest == Toks(e) + f && !EndsSkipped(env, e.c)
    ensures Next(g, Question) && g[1..] == Toks(e.a) + ([P(Colon)] + (Toks(e.b) + f))
    ensures Ev(env, 11, c) == (Reading(env, e.c).v, After(c, g, Reading(env, e.c).errs))
    ensures !Next(c.rest, Comma)
    decreases Size(e), 12, 1
  {
    g := [P(Question)] + (Toks(e.a) + ([P(Colon)] + (Toks(e.b) + f)));
    CondToks(e, f);
    ConditionReady(env, e, f, g);
    hide CodeOp, Arms, Errors, After, Lp, Toks, Jams, WellFormed, EndsSkipped, Reading, Ready, Size;
    var d := Reading(env, e.c);
    FirstToken(e.c);
    assert c.rest[0] == Toks(e.c)[0];
    Run(env, 11, e.c, g, c);
    AfterAfter(c, g, f, d.errs, 0);
    LpStops(env, 11, d.v, After(c, g, d.errs));
  }

  /** What the arms come to when the first is selected, given what evaluating each gives. */
  lemma FirstArm(env: Env, c: Ctx, g: seq<Tok>, f: seq<Tok>, da: Den, db: Den)
    requires Next(c.rest, Question) && Next(g, Colon)
    requires Ev(env, 12, Drop1(c)) == (da.v, After(c, g, da.errs))
    requires var c3 := After(c, g[1..], da.errs).(suppress := true);
             Ev(env, 12, c3) == (db.v, After(c3, f, db.errs))
    ensures Arms(env, true, c) == (Select(true, da.v, db.v), After(c, f, da.errs))
  {
    hide Ev, Select;
  }

  /** When the second is: evaluating the first leaves no trace. */
  lemma SecondArm(env: Env, c: Ctx, g: seq<Tok>, f: seq<Tok>, da: Den, db: Den)
    requires Next(c.rest, Question) && Next(g, Colon)
    requires var c1 := Drop1(c).(suppress := true); Ev(env, 12, c1) == (da.v, After(c1, g, da.errs))
    requires Ev(env, 12, c.(rest := g[1..])) == (db.v, After(c, f, db.errs))
    ensures Arms(env, false, c) == (Select(false, da.v, db.v), After(c, f, db.errs))
  {
    hide Ev, Select;
  }

  /** The arms, after the condition: the unselected one leaves no trace but its signedness. */
  lemma {:induction false} RunArms(env: Env, e: Expr, f: seq<Tok>, c: Ctx)
    requires e.Cond? && Ready(env, 12, e, f) && !EndsSkipped(env, e.c)
    requires Next(c.rest, Question) && c.rest[1..] == Toks(e.a) + ([P(Colon)] + (Toks(e.b) + f))
    ensures var (first, da, db) := (Reading(env, e.c).v.v != 0, Reading(env, e.a), Reading(env, e.b));
            Arms(env, first, c) == (Select(first, da.v, db.v), After(c, f, if first then da.errs else db.errs))
    decreases Size(e), 12, 1
  {
    hide CodeOp, Ev, Lp, Arms, Toks, Errors, Select, Reading, Jams, WellFormed, EndsSkipped, Ready, Size, After;
    ArmsReady(env, e, f);
    var g := [P(Colon)] + (Toks(e.b) + f);
    assert g[1..] == Toks(e.b) + f;
    var (da, db) := (Reading(env, e.a), Reading(env, e.b));
    if Reading(env, e.c).v.v != 0 {
      AfterRest(c, g[1..], da.errs);
      AfterDrop(c, g, da.errs);
      Run(env, 12, e.a, g, Drop1(c));
      Run(env, 12, e.b, f, After(c, g[1..], da.errs).(suppress := true));
      FirstArm(env, c, g, f, da, db);
    } else {
      Run(env, 12, e.a, g, Drop1(c).(suppress := true));
      Run(env, 12, e.b, f, c.(rest := g[1..]));
      AfterFrom(c, g[1..], f, db.errs);
      SecondArm(env, c, g, f, da, db);
    }
  }

  lemma AfterRest(c: Ctx, f: seq<Tok>, n: nat)
    ensures After(c, f, n).rest == f
  {}

  lemma AfterFrom(c: Ctx, g: seq<Tok>, f: seq<Tok>, n: nat)
    ensures After(c.(rest := g), f, n) == After(c, f, n)
  {}

  lemma ArmsReady(env: Env, e: Expr, f: seq<Tok>)
    requires e.Cond? && Ready(env, 12, e, f) && !EndsSkipped(env, e.c)
    ensures Ready(env, 12, e.a, [P(Colon)] + (Toks(e.b) + f)) && Ready(env, 12, e.b, f)
    ensures Size(e.a) < Size(e) && Size(e.b) < Size(e)
  {
    hide Reading, Toks;
  }

  // ---- a condition that ends skipped ----

  lemma LpFalseSkips(env: Env, c: Ctx)
    ensures Lp(env, 10, Bool(false), c) == (Bool(false), c.(rest := SkipAnds(c.rest)))
    decreases |c.rest|
  {
    hide SkipExpr, CodeOp;
    if Next(c.rest, AndAnd) {
      LpFalseSkips(env, Drop1(c).(rest := SkipExpr(c.rest[1..], 0, 0)));
    }
  }

  /** Skips `&&` and its operand as long as they come next. */
  function SkipAnds(s: seq<Tok>): seq<Tok>
    decreases |s|
  {
    if Next(s, AndAnd) then SkipAnds(SkipExpr(s[1..], 0, 0)) else s
  }

  lemma {:induction false} SkipAndsIs(s: seq<Tok>)
    ensures SkipAnds(SkipExpr(s, 0, 0)) == SkipLogAnd(s)
    decreases |s|
  {
    hide SkipExpr;
    var h := SkipExpr(s, 0, 0);
    if Next(h, AndAnd) {
      SkipAndsIs(h[1..]);
    }
  }

  lemma {:induction false} LpTrueSkips(env: Env, c: Ctx)
    ensures Lp(env, 11, Bool(true), c) == (Bool(true), c.(rest := SkipOrs(c.rest)))
    decreases |c.rest|
  {
    hide SkipLogAnd, CodeOp;
    if Next(c.rest, OrOr) {
      LpTrueSkips(env, Drop1(c).(rest := SkipLogAnd(c.rest[1..])));
    }
  }

  function SkipOrs(s: seq<Tok>): seq<Tok>
    decreases |s|
  {
    if Next(s, OrOr) then SkipOrs(SkipLogAnd(s[1..])) else s
  }

  lemma {:induction false} SkipOrsIs(s: seq<Tok>)
    ensures SkipOrs(SkipLogAnd(s)) == SkipLogOr(s)
    decreases |s|
  {
    hide SkipLogAnd;
    var h := SkipLogAnd(s);
    if Next(h, OrOr) {
      SkipOrsIs(h[1..]);
    }
  }

  /** The condition p, whose last operand is skipped, in front of g: a true one skips g on, past
      every `||`; a false one leaves the loop of `||` in front of the first. */
  predicate SkipsOn(env: Env, p: Expr, g: seq<Tok>, c: Ctx) {
    var d := Reading(env, p);
    Ev(env, 11, c) ==
      if d.v.v != 0 then (d.v, After(c, SkipLogOr(g), d.errs))
      else Lp(env, 11, Bool(false), After(c, SkipLogAnd(g), d.errs))
  }

  /** `l && r` with a false left operand, at its own level. */
  lemma {:induction false} AndSkipsOn(env: Env, p: Expr, g: seq<Tok>, c: Ctx)
    requires p.LAnd? && WellFormed(p) && !Jams(env, p) && Reading(env, p.l).v.v == 0
    requires c.rest == Toks(p) + g
    ensures Ev(env, 10, c) == (Bool(false), After(c, SkipLogAnd(g), Reading(env, p).errs))
    ensures Reading(env, p).v == Bool(false)
    decreases Size(p), 11, 0
  {
    var t := P(AndAnd);
    var h := Toks(p.r) + g;
    ReadingOfTwo(env, p);
    BinaryToks(p, g);
    assert Ready(env, 10, p.l, [t] + h) && WellFormed(p.r) && Lvl(p.r) <= 9;
    hide CodeOp, Ev, Toks, Ready, Jams, WellFormed, EndsSkipped, Reading, SkipExpr, SkipLogAnd, SkipAnds;
    RunLeft(env, p, p.l, t, h, c);
    var n := Reading(env, p.l).errs;
    AfterAfter(c, [t] + h, SkipExpr(g, 0, 0), n, 0);
    AfterAfter(c, [t] + h, SkipLogAnd(g), n, 0);
    SkipPhrase(p.r, g, 0, 0);
    SkipAndsIs(g);
    LpFalseSkips(env, After(c, SkipExpr(g, 0, 0), n));
    AfterAfter(c, SkipExpr(g, 0, 0), SkipLogAnd(g), n, 0);
    LpAndStep(env, Reading(env, p.l).v, After(c, [t] + h, n));
  }

  lemma LpAndStep(env: Env, v: Value, c: Ctx)
    requires Next(c.rest, AndAnd) && v.v == 0
    ensures Lp(env, 10, v, c) == Lp(env, 10, Bool(false), c.(rest := SkipExpr(c.rest[1..], 0, 0)))
  {
    hide SkipExpr;
  }

  lemma LpOrStep(env: Env, v: Value, c: Ctx)
    requires Next(c.rest, OrOr)
    ensures Lp(env, 11, v, c) ==
              if v.v != 0 then Lp(env, 11, Bool(true), c.(rest := SkipLogAnd(c.rest[1..])))
              else var (r, c2) := Ev(env, 10, Drop1(c)); Lp(env, 11, Bool(r.v != 0), c2)
  {
    hide SkipLogAnd;
  }

  lemma {:induction false} RunSkipped(env: Env, p: Expr, g: seq<Tok>, c: Ctx)
    requires WellFormed(p) && !Jams(env, p) && EndsSkipped(env, p) && c.rest == Toks(p) + g
    ensures SkipsOn(env, p, g, c)
    decreases Size(p), 11, 3
  {
    if p.LAnd? {
      AndSkipsOn(env, p, g, c);
      hide CodeOp, Lp, Toks, Jams, Reading, SkipLogAnd;
    } else {
      OrSkipsOn(env, p, g, c);
    }
  }

  lemma {:induction false} OrSkipsOn(env: Env, p: Expr, g: seq<Tok>, c: Ctx)
    requires p.LOr? && WellFormed(p) && !Jams(env, p) && EndsSkipped(env, p) && c.rest == Toks(p) + g
    ensures SkipsOn(env, p, g, c)
    decreases Size(p), 11, 2
  {
    hide CodeOp, Ev, Lp, Toks, Ready, Jams, WellFormed, EndsSkipped, Reading, SkipExpr, SkipLogAnd, SkipOrs, SkipLogOr, Size,
         Errors, Lvl;
    var h := [P(OrOr)] + (Toks(p.r) + g);
    BinaryToks(p, g);
    OrParts(env, p, h);
    OrLeft(env, p, h, c);
    var (dl, dr) := (Reading(env, p.l), Reading(env, p.r));
    var c1 := After(c, h, dl.errs);
    AfterRest(c, h, dl.errs);
    if dl.v.v != 0 {
      AfterAfter(c, h, SkipLogOr(g), dl.errs, 0);
      OrTrueSkipsOn(env, p.r, g, dl.v, c1);
    } else {
      AfterAfter(c, h, SkipLogAnd(g), dl.errs, dr.errs);
      OrFalseSkipsOn(env, p, g, dl.v, c1);
    }
  }

  lemma {:induction false} OrLeft(env: Env, p: Expr, h: seq<Tok>, c: Ctx)
    requires p.LOr? && Ready(env, 11, p.l, h) && Next(h, OrOr) && c.rest == Toks(p.l) + h
    ensures Ev(env, 11, c) == Lp(env, 11, Reading(env, p.l).v, After(c, h, Reading(env, p.l).errs))
    decreases Size(p), 11, 1
  {
    assert h == [P(OrOr)] + h[1..] && Size(p.l) < Size(p);
    hide CodeOp, Ev, Lp, Toks, Ready, Reading, Errors, Size;
    RunLeft(env, p, p.l, P(OrOr), h[1..], c);
  }

  /** `|| r` behind a true operand is skipped with what follows. */
  lemma OrTrueSkipsOn(env: Env, r: Expr, g: seq<Tok>, v: Value, c: Ctx)
    requires v.v != 0 && Next(c.rest, OrOr) && c.rest[1..] == Toks(r) + g && WellFormed(r) && Lvl(r) <= 10
    ensures Lp(env, 11, v, c) == (Bool(true), c.(rest := SkipLogOr(g)))
  {
    hide CodeOp, Ev, Lp, Toks, WellFormed, SkipExpr, SkipLogAnd, SkipOrs, SkipLogOr, Lvl;
    LpOrStep(env, v, c);
    SkipChain(r, g);
    SkipLogAndIs(g);
    LpTrueSkips(env, c.(rest := SkipLogAnd(g)));
    SkipOrsIs(g);
  }

  /** `|| r` where r is skipped from its `&&` on. */
  lemma {:induction false} OrFalseSkipsOn(env: Env, p: Expr, g: seq<Tok>, v: Value, c: Ctx)
    requires p.LOr? && v.v == 0 && Next(c.rest, OrOr) && c.rest[1..] == Toks(p.r) + g
    requires p.r.LAnd? && WellFormed(p.r) && !Jams(env, p.r) && Reading(env, p.r.l).v.v == 0
    ensures Lp(env, 11, v, c) == Lp(env, 11, Bool(false), After(c, SkipLogAnd(g), Reading(env, p.r).errs))
    ensures Reading(env, p.r).v.v == 0
    decreases Size(p), 11, 0
  {
    assert Size(p.r) < Size(p);
    hide CodeOp, Ev, Lp, Toks, Jams, WellFormed, Reading, SkipLogAnd, Errors, Size, After;
    LpOrStep(env, v, c);
    AndSkipsOn(env, p.r, g, Drop1(c));
    AfterDrop(c, SkipLogAnd(g), Reading(env, p.r).errs);
  }

  lemma OrParts(env: Env, p: Expr, g: seq<Tok>)
    requires p.LOr? && WellFormed(p) && !Jams(env, p) && EndsSkipped(env, p) && Next(g, OrOr)
    ensures Ready(env, 11, p.l, g) && WellFormed(p.r) && Lvl(p.r) <= 10 && Size(p.l) < Size(p) && Size(p.r) < Size(p)
    ensures var (d, dl, dr) := (Reading(env, p), Reading(env, p.l), Reading(env, p.r));
            if dl.v.v != 0 then d == Den(Bool(true), dl.errs)
            else d == Den(Bool(dr.v.v != 0), dl.errs + dr.errs) && p.r.LAnd? && Reading(env, p.r.l).v.v == 0 && !Jams(env, p.r)
  {
    ReadingOfTwo(env, p);
    hide Toks, Reading;
  }

  /** 0 in front of `||`. */
  lemma ZeroBeforeOr(env: Env, c: Ctx)
    requires c.rest != [] && c.rest[0] == PpNumber("0") && Next(c.rest[1..], OrOr)
    ensures Ev(env, 11, c) == Lp(env, 11, Bool(false), Drop1(c))
  {
    var c1 := Drop1(c);
    ZeroLiteral();
    assert Ev(env, 0, c) == Primary(env, c) == (Signed(0), c1);
    assert Ev(env, 1, c) == (Signed(0), c1) by { EvUnary(env, c); }
    hide Primary, CodeOp, Conditional, Arms;
    ClimbZero(env, 10, c);
  }

  lemma {:induction false} ClimbZero(env: Env, k: nat, c: Ctx)
    requires 1 <= k <= 10 && c.rest != [] && Next(c.rest[1..], OrOr) && Ev(env, 1, c) == (Signed(0), Drop1(c))
    ensures Ev(env, k, c) == (Signed(0), Drop1(c))
  {
    hide CodeOp;
    if k > 1 {
      ClimbZero(env, k - 1, c);
      LpStops(env, k, Signed(0), Drop1(c));
    }
  }

  lemma ZeroLiteral()
    ensures Literal("0") == Signed(0) && !Overflows("0") && Bool(false) == Signed(0)
  {
    assert RunEnd(8, "0", 1) == 1 && "0"[1..1] == "";
    assert IntLiteral.Number(8, "") == 0;
  }

  /** With a condition that ends skipped and is false, what is evaluated next is what is left of
      the second arm, as if it stood there with 0 in place of what was skipped. */
  lemma {:induction false} Resumed(env: Env, e: Expr, f: seq<Tok>, c: Ctx)
    requires e.Cond? && WellFormed(e) && FollowOK(12, f) && c.rest == Toks(e) + f
    requires !Jams(env, e.c) && EndsSkipped(env, e.c) && Reading(env, e.c).v.v == 0 && Resume(e.b).Some?
    ensures var c1 := After(c, Toks(Resume(e.b).value) + f, Reading(env, e.c).errs);
            Ev(env, 12, c) == Ev(env, 12, c1)
    decreases Size(e), 12, 0
  {
    hide CodeOp, Toks, Jams, EndsSkipped, Reading, SkipExpr, SkipLogAnd, SkipLogOr, Lp, Arms, Errors;
    var g := [P(Question)] + (Toks(e.a) + ([P(Colon)] + (Toks(e.b) + f)));
    CondToks(e, f);
    RunSkipped(env, e.c, g, c);
    SkipFirstArm(e.a, Toks(e.b) + f);
    SkipToResume(e.b, f);
    var t := Toks(Resume(e.b).value);
    assert (t + f)[1..] == t[1..] + f;
    var c1 := After(c, t + f, Reading(env, e.c).errs);
    AfterAfter(c, t + f, f, Reading(env, e.c).errs, 0);
    ZeroBeforeOr(env, c1);
    FirstToken(e.c);
    assert c.rest[0] == Toks(e.c)[0];
    SameCondition(env, c, c1);
  }

  lemma SameCondition(env: Env, c: Ctx, c1: Ctx)
    requires !Next(c.rest, Comma) && !Next(c1.rest, Comma) && Ev(env, 11, c) == Ev(env, 11, c1)
    ensures Ev(env, 12, c) == Ev(env, 12, c1)
  {
    assert Ev(env, 12, c) == Conditional(env, c) && Ev(env, 12, c1) == Conditional(env, c1);
    hide Ev, Arms, Lp;
  }

  /** The evaluator on a conditional whose condition ends skipped. */
  lemma {:induction false} RunSwallowed(env: Env, e: Expr, f: seq<Tok>, c: Ctx)
    requires e.Cond? && Ready(env, 12, e, f) && c.rest == Toks(e) + f && EndsSkipped(env, e.c)
    ensures Runs(env, 12, e, f, c)
    decreases Size(e), 12, 1
  {
    var (dc, r) := (Reading(env, e.c), Resume(e.b));
    assert Reading(env, e) == if dc.v.v != 0 || r == None then dc
                              else Den(Reading(env, r.value).v, dc.errs + Reading(env, r.value).errs);
    assert !Jams(env, e.c) && (dc.v.v == 0 && r.Some? ==> Ready(env, 12, r.value, f) && Size(r.value) < Size(e));
    hide CodeOp, Toks, Jams, EndsSkipped, Reading, SkipExpr, SkipLogAnd, SkipLogOr, Lp, Arms, Errors, Resume;
    if dc.v.v == 0 && r.Some? {
      Resumed(env, e, f, c);
      AfterAfter(c, Toks(r.value) + f, f, dc.errs, Reading(env, r.value).errs);
      Run(env, 12, r.value, f, After(c, Toks(r.value) + f, dc.errs));
    } else {
      SwallowedWhole(env, e, f, c);
    }
  }

  /** Nothing is left of the arms: the condition is the result. */
  lemma {:induction false} SwallowedWhole(env: Env, e: Expr, f: seq<Tok>, c: Ctx)
    requires e.Cond? && WellFormed(e) && FollowOK(12, f) && c.rest == Toks(e) + f
    requires !Jams(env, e.c) && EndsSkipped(env, e.c) && (Reading(env, e.c).v.v != 0 || Resume(e.b) == None)
    ensures Ev(env, 12, c) == (Reading(env, e.c).v, After(c, f, Reading(env, e.c).errs))
    decreases Size(e), 12, 0
  {
    hide CodeOp, Toks, Jams, EndsSkipped, Reading, SkipExpr, SkipLogAnd, SkipLogOr, Arms, Errors;
    var (d, g) := (Reading(env, e.c), [P(Question)] + (Toks(e.a) + ([P(Colon)] + (Toks(e.b) + f))));
    CondToks(e, f);
    RunSkipped(env, e.c, g, c);
    SkipFirstArm(e.a, Toks(e.b) + f);
    FirstToken(e.c);
    assert c.rest[0] == Toks(e.c)[0];
    SkipLogAndStops(f);
    AfterAfter(c, f, f, d.errs, 0);
    if d.v.v != 0 {
      SkipLogOrIs(g);
      SkipLogOrIs(Toks(e.b) + f);
      SkipAll(e.b, f);
      SkipLogOrIs(f);
    } else {
      SkipToResume(e.b, f);
      SkippedIsFalse(env, e.c);
      LpStops(env, 11, Bool(false), After(c, f, d.errs));
    }
    LpStops(env, 12, d.v, After(c, f, d.errs));
    assert Ev(env, 12, c) == Conditional(env, c);
  }

  lemma SkippedIsFalse(env: Env, p: Expr)
    requires EndsSkipped(env, p) && Reading(env, p).v.v == 0
    ensures Reading(env, p).v == Bool(false)
  {}

  // ---- the result ----

  /** Every phrase of the grammar on which the evaluator stays in step, in front of any token that
      may follow it: the evaluator gives its reading, raises its errors and stops exactly at that
      token. */
  lemma EvaluatorReads(env: Env, k: nat, e: Expr, f: seq<Tok>, c: Ctx)
    requires WellFormed(e) && Lvl(e) <= k <= 12 && !Jams(env, e)
    requires c.rest == Toks(e) + f && FollowOK(if k == 0 then 1 else k, f)
    requires Next(f, Question) ==> !EndsSkipped(env, e)
    ensures Ev(env, k, c) == (Reading(env, e).v, After(c, f, Reading(env, e).errs))
  {
    hide Ev, Lp, Reading, Errors, After, Jams, Toks;
    if k >= 2 {
      FollowsDown(if k == 12 then 12 else k - 1, k, f);
    }
    Run(env, k, e, f, c);
    AfterAfter(c, f, f, Reading(env, e).errs, 0);
    if 2 <= k <= 11 {
      LpStops(env, k, Reading(env, e).v, After(c, f, Reading(env, e).errs));
    }
  }
}
