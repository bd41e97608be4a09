/** What happens once the evaluator has stopped at a zero divisor with a multiplicative operator
    behind it: it never gets back into step, so that the line does not end where it should. */
module IfJams {
  import opened Bits
  import opened IntMax
  import opened IntLiteral
  import opened IfEval
  import opened IfTrees
  import opened IfEvaluates
  import opened Options

  predicate Closer(t: Tok) { t == P(RParen) || t == P(Colon) }

  predicate StartsCloser(s: seq<Tok>) { s != [] && Closer(s[0]) }

  /** The closing tokens `)` and `:` that tokens hold beyond those that match an opening one, read
      inside d parentheses; what stands in parentheses does not count. */
  function Surplus(s: seq<Tok>, d: nat): int {
    if s == [] then 0
    else if s[0] == P(LParen) then Surplus(s[1..], d + 1)
    else if s[0] == P(RParen) then (if d > 0 then Surplus(s[1..], d - 1) else 1 + Surplus(s[1..], 0))
    else if s[0] == P(Question) && d == 0 then -1 + Surplus(s[1..], 0)
    else if s[0] == P(Colon) && d == 0 then 1 + Surplus(s[1..], 0)
    else Surplus(s[1..], d)
  }

  /** Tokens as they follow a place inside an expression: no comma, no operator of the __has_*
      family, `defined` with its name, what parentheses hold balanced, and behind an operator or
      an opening token nothing that closes. */
  predicate Tame(s: seq<Tok>)
    decreases |s|
  {
    s == [] ||
    match s[0]
    case Ident(name) =>
      if name == "defined" then
        (|s| >= 2 && s[1].Ident? && Tame(s[2..])) ||
        (|s| >= 4 && s[1] == P(LParen) && s[2].Ident? && s[3] == P(RParen) && Tame(s[4..]))
      else name !in HAS_OPERATORS && !Next(s[1..], LParen) && Tame(s[1..])
    case P(p) =>
      p != Comma && (p == LParen ==> Surplus(s[1..], 0) == Surplus(s, 0) + 1)
      && (p != RParen ==> !StartsCloser(s[1..])) && Tame(s[1..])
    case _ => Tame(s[1..])
  }

  // ---- the tokens of a tree ----

  lemma SurplusCons(t: Tok, s: seq<Tok>, d: nat)
    ensures Surplus([t] + s, d) ==
              if t == P(LParen) then Surplus(s, d + 1)
              else if t == P(RParen) then (if d > 0 then Surplus(s, d - 1) else 1 + Surplus(s, 0))
              else if t == P(Question) && d == 0 then -1 + Surplus(s, 0)
              else if t == P(Colon) && d == 0 then 1 + Surplus(s, 0)
              else Surplus(s, d)
  {
    assert ([t] + s)[1..] == s;
  }

  /** The tokens of a tree hold no surplus. */
  lemma {:induction false} TreeBalanced(e: Expr, f: seq<Tok>, d: nat)
    ensures Surplus(Toks(e) + f, d) == Surplus(f, d)
    decreases e, 1
  {
    hide Surplus, Toks;
    match e {
      case Defined(id, parens) => DefinedBalanced(id, parens, f, d);
      case Paren(x) =>
        ParenToks(x, f);
        SurplusCons(P(LParen), Toks(x) + ([P(RParen)] + f), d);
        TreeBalanced(x, [P(RParen)] + f, d + 1);
        SurplusCons(P(RParen), f, d + 1);
      case Unary(op, x) =>
        UnaryToks(e, f);
        SurplusCons(UnTok(op), Toks(x) + f, d);
        TreeBalanced(x, f, d);
      case Cond(c, a, b) => CondBalanced(e, f, d);
      case Binary(_, _, _) => TwoBalanced(e, f, d);
      case LAnd(_, _) => TwoBalanced(e, f, d);
      case LOr(_, _) => TwoBalanced(e, f, d);
      case _ =>
        LeafToks(e);
        SurplusCons(Toks(e)[0], f, d);
    }
  }

  lemma UnaryToks(e: Expr, f: seq<Tok>)
    requires e.Unary?
    ensures Toks(e) + f == [UnTok(e.uop)] + (Toks(e.e) + f)
  {}

  lemma LeafToks(e: Expr)
    requires e.Number? || e.Char? || e.Name?
    ensures Toks(e) == [Toks(e)[0]] && !Toks(e)[0].P?
  {}

  lemma {:induction false} TwoBalanced(e: Expr, f: seq<Tok>, d: nat)
    requires e.Binary? || e.LAnd? || e.LOr?
    ensures Surplus(Toks(e) + f, d) == Surplus(f, d)
    decreases e, 0
  {
    hide Surplus, Toks;
    BinaryToks(e, f);
    TreeBalanced(e.l, [Between(e)] + (Toks(e.r) + f), d);
    SurplusCons(Between(e), Toks(e.r) + f, d);
    TreeBalanced(e.r, f, d);
  }

  lemma {:induction false} CondBalanced(e: Expr, f: seq<Tok>, d: nat)
    requires e.Cond?
    ensures Surplus(Toks(e) + f, d) == Surplus(f, d)
    decreases e, 0
  {
    hide Surplus, Toks;
    CondToks(e, f);
    TreeBalanced(e.c, [P(Question)] + (Toks(e.a) + ([P(Colon)] + (Toks(e.b) + f))), d);
    SurplusCons(P(Question), Toks(e.a) + ([P(Colon)] + (Toks(e.b) + f)), d);
    TreeBalanced(e.a, [P(Colon)] + (Toks(e.b) + f), d);
    SurplusCons(P(Colon), Toks(e.b) + f, d);
    TreeBalanced(e.b, f, d);
  }

  lemma DefinedToks(id: string, parens: bool, f: seq<Tok>)
    ensures Toks(Defined(id, parens)) + f ==
              if parens then [Ident("defined")] + ([P(LParen)] + ([Ident(id)] + ([P(RParen)] + f)))
              else [Ident("defined")] + ([Ident(id)] + f)
  {}

  lemma DefinedBalanced(id: string, parens: bool, f: seq<Tok>, d: nat)
    ensures Surplus(Toks(Defined(id, parens)) + f, d) == Surplus(f, d)
  {
    hide Surplus, Toks;
    DefinedToks(id, parens, f);
    if parens {
      SurplusCons(P(RParen), f, d + 1);
      SurplusCons(Ident(id), [P(RParen)] + f, d + 1);
      SurplusCons(P(LParen), [Ident(id)] + ([P(RParen)] + f), d);
      SurplusCons(Ident("defined"), [P(LParen)] + ([Ident(id)] + ([P(RParen)] + f)), d);
    } else {
      SurplusCons(Ident(id), f, d);
      SurplusCons(Ident("defined"), [Ident(id)] + f, d);
    }
  }

  lemma TameCons(t: Tok, s: seq<Tok>)
    requires Tame(s) && t != P(Comma) && (t.Ident? ==> t.name != "defined" && t.name !in HAS_OPERATORS && !Next(s, LParen))
    requires t.P? && t != P(RParen) ==> !StartsCloser(s)
    requires t == P(LParen) ==> Surplus(s, 0) == Surplus([t] + s, 0) + 1
    ensures Tame([t] + s)
  {
    assert ([t] + s)[1..] == s;
  }

  lemma TreeStart(e: Expr, f: seq<Tok>)
    ensures !StartsCloser(Toks(e) + f) && Toks(e) + f != []
  {
    FirstOf(e);
    assert (Toks(e) + f)[0] == Toks(e)[0];
  }

  lemma {:induction false} FirstOf(e: Expr)
    ensures !Closer(Toks(e)[0])
  {
    match e {
      case Binary(_, l, _) => FirstOf(l);
      case LAnd(l, _) => FirstOf(l);
      case LOr(l, _) => FirstOf(l);
      case Cond(c, _, _) => FirstOf(c);
      case _ =>
    }
  }

  /** The tokens of a tree are tame in front of tame tokens. */
  lemma {:induction false} TreeTame(e: Expr, f: seq<Tok>)
    requires WellFormed(e) && Tame(f) && !Next(f, LParen)
    ensures Tame(Toks(e) + f)
    decreases e, 1
  {
    hide Surplus, Tame;
    match e {
      case Number(_) => TameCons(Toks(e)[0], f);
      case Char(_, _) => TameCons(Toks(e)[0], f);
      case Name(_) => TameCons(Toks(e)[0], f);
      case Defined(id, parens) => DefinedTame(id, parens, f);
      case Paren(x) =>
        TameCons(P(RParen), f);
        TreeTame(x, [P(RParen)] + f);
        ParenTame(x, f);
      case Unary(op, x) =>
        assert Toks(e) + f == [UnTok(op)] + (Toks(x) + f);
        TreeTame(x, f);
        TreeStart(x, f);
        TameCons(UnTok(op), Toks(x) + f);
      case Cond(c, a, b) => CondTame(e, f);
      case _ => TwoTame(e, f);
    }
  }

  lemma ParenTame(x: Expr, f: seq<Tok>)
    requires Tame(Toks(x) + ([P(RParen)] + f))
    ensures Tame(Toks(Paren(x)) + f)
  {
    hide Surplus, Tame, Toks;
    var g := [P(RParen)] + f;
    ParenToks(x, f);
    TreeStart(x, g);
    TreeBalanced(x, g, 0);
    TreeBalanced(x, g, 1);
    SurplusCons(P(RParen), f, 0);
    SurplusCons(P(RParen), f, 1);
    SurplusCons(P(LParen), Toks(x) + g, 0);
    TameCons(P(LParen), Toks(x) + g);
  }

  lemma {:induction false} TwoTame(e: Expr, f: seq<Tok>)
    requires (e.Binary? || e.LAnd? || e.LOr?) && WellFormed(e) && Tame(f) && !Next(f, LParen)
    ensures Tame(Toks(e) + f) && Tame([Between(e)] + (Toks(e.r) + f))
    decreases e, 0
  {
    hide Surplus, Tame, Toks;
    BinaryToks(e, f);
    TreeTame(e.r, f);
    TreeStart(e.r, f);
    TameCons(Between(e), Toks(e.r) + f);
    TreeTame(e.l, [Between(e)] + (Toks(e.r) + f));
  }

  lemma {:induction false} CondTame(e: Expr, f: seq<Tok>)
    requires e.Cond? && WellFormed(e) && Tame(f) && !Next(f, LParen)
    ensures var g := [P(Colon)] + (Toks(e.b) + f);
            Tame(Toks(e) + f) && Tame([P(Question)] + (Toks(e.a) + g)) && Tame(g)
    decreases e, 0
  {
    hide Surplus, Tame, Toks;
    var g := [P(Colon)] + (Toks(e.b) + f);
    CondToks(e, f);
    TreeTame(e.b, f);
    TreeStart(e.b, f);
    TameCons(P(Colon), Toks(e.b) + f);
    TreeTame(e.a, g);
    TreeStart(e.a, g);
    TameCons(P(Question), Toks(e.a) + g);
    TreeTame(e.c, [P(Question)] + (Toks(e.a) + g));
  }

  lemma DefinedTame(id: string, parens: bool, f: seq<Tok>)
    requires Tame(f)
    ensures Tame(Toks(Defined(id, parens)) + f)
  {
    hide Surplus;
    var s := Toks(Defined(id, parens)) + f;
    assert if parens then s[4..] == f else s[2..] == f;
  }

  // ---- skipping ----

  /** Skipping takes no surplus closing token. */
  lemma {:induction false} SkipKeeps(s: seq<Tok>, depth: nat, tern: nat)
    requires Tame(s)
    ensures Tame(SkipExpr(s, depth, tern)) && Surplus(SkipExpr(s, depth, tern), 0) >= Surplus(s, depth) - tern
    decreases |s|
  {
    if s != [] && s[0] == Ident("defined") {
      SkipDefinedKeeps(s, depth, tern);
    } else if s != [] {
      if s[0] == P(LParen) {
        SkipKeeps(s[1..], depth + 1, tern);
      } else if s[0] == P(RParen) {
        if depth > 0 { SkipKeeps(s[1..], depth - 1, tern); }
      } else if s[0] == P(Question) && depth == 0 {
        SkipKeeps(s[1..], 0, tern + 1);
      } else if s[0] == P(Colon) && depth == 0 {
        if tern > 0 { SkipKeeps(s[1..], 0, tern - 1); }
      } else {
        SkipKeeps(s[1..], depth, tern);
      }
    }
  }

  /** The name that `defined` asks about, in a tame list, and what follows. */
  lemma DefinedIn(s: seq<Tok>) returns (id: string, parens: bool, f: seq<Tok>)
    requires s != [] && s[0] == Ident("defined") && Tame(s)
    ensures s == Toks(Defined(id, parens)) + f && Tame(f) && |f| < |s|
  {
    hide Surplus;
    parens := s[1] == P(LParen);
    if parens {
      id, f := s[2].name, s[4..];
    } else {
      id, f := s[1].name, s[2..];
    }
  }

  lemma {:induction false} SkipDefinedKeeps(s: seq<Tok>, depth: nat, tern: nat)
    requires Tame(s) && s != [] && s[0] == Ident("defined")
    ensures Tame(SkipExpr(s, depth, tern)) && Surplus(SkipExpr(s, depth, tern), 0) >= Surplus(s, depth) - tern
    decreases |s|, 0
  {
    hide Surplus, Tame, Toks, SkipExpr;
    var id, parens, f := DefinedIn(s);
    SkipDefined(id, parens, f, depth, tern);
    DefinedBalanced(id, parens, f, depth);
    SkipKeeps(f, depth, tern);
  }

  lemma {:induction false} SkipAndKeeps(s: seq<Tok>)
    requires Tame(s)
    ensures Tame(SkipLogAnd(s)) && Surplus(SkipLogAnd(s), 0) >= Surplus(s, 0)
    decreases |s|
  {
    hide SkipExpr;
    SkipKeeps(s, 0, 0);
    var h := SkipExpr(s, 0, 0);
    if Next(h, AndAnd) {
      SkipAndKeeps(h[1..]);
    }
  }

  // ---- evaluating ----

  /** From c to c1 at most one surplus closing token is taken, and none unless c starts with it. */
  predicate Keeps(c: Ctx, c1: Ctx) {
    Tame(c1.rest) && Surplus(c1.rest, 0) >= Surplus(c.rest, 0) - if StartsCloser(c.rest) then 1 else 0
  }

  /** From c to c1 no surplus closing token is taken. */
  predicate KeepsAll(c: Ctx, c1: Ctx) {
    Tame(c1.rest) && Surplus(c1.rest, 0) >= Surplus(c.rest, 0)
  }

  lemma TameTail(s: seq<Tok>)
    requires Tame(s) && s != [] && s[0].P?
    ensures Tame(s[1..]) && s[0] != P(Comma) && (s[0] != P(RParen) ==> !StartsCloser(s[1..]))
    ensures Surplus(s[1..], 0) == Surplus(s, 0) + if Closer(s[0]) then -1 else if s[0].p in {LParen, Question} then 1 else 0
  {}

  lemma {:induction false} EvKeeps(env: Env, k: nat, c: Ctx)
    requires k <= 12 && Tame(c.rest)
    ensures Keeps(c, Ev(env, k, c).1)
    decreases |c.rest|, 3 * k + 2
  {
    hide Tame, Surplus, Lp, Primary, Conditional, Arms, CodeOp;
    if k == 0 {
      PrimaryKeeps(env, c);
      assert Ev(env, 0, c) == Primary(env, c);
    } else if k == 1 {
      UnaryKeeps(env, c);
    } else if k == 12 {
      ConditionalKeeps(env, c);
      assert Ev(env, 12, c) == Conditional(env, c);
    } else {
      EvUp(env, k, c);
      EvKeeps(env, k - 1, c);
      LpKeeps(env, k, Ev(env, k - 1, c).0, Ev(env, k - 1, c).1);
    }
  }

  lemma {:induction false} PrimaryKeeps(env: Env, c: Ctx)
    requires Tame(c.rest)
    ensures Keeps(c, Primary(env, c).1)
    decreases |c.rest|, 0
  {
    if c.rest != [] && c.rest[0] == P(LParen) {
      hide Tame, Surplus, Ev;
      TameTail(c.rest);
      EvKeeps(env, 12, Drop1(c));
      ExpectTakes(Ev(env, 12, Drop1(c)).1, RParen);
    } else if c.rest != [] && c.rest[0] == Ident("defined") {
      hide Surplus, Tame, Toks;
      var id, parens, f := DefinedIn(c.rest);
      DefinedOpTakes(env, id, parens, f, c);
      DefinedBalanced(id, parens, f, 0);
    } else {
      hide Ev;
    }
  }

  lemma DefinedOpTakes(env: Env, id: string, parens: bool, f: seq<Tok>, c: Ctx)
    requires c.rest == Toks(Defined(id, parens)) + f
    ensures Primary(env, c).1 == c.(rest := f)
  {
    hide Ev;
    var c1 := Drop1(c);
    if parens {
      assert c1.rest[1..] == [Ident(id)] + ([P(RParen)] + f);
      assert c1.rest[2..] == [P(RParen)] + f;
      assert c1.rest[3..] == f;
    } else {
      assert c1.rest == [Ident(id)] + f;
      assert c1.rest[1..] == f;
    }
  }

  lemma ExpectTakes(c: Ctx, p: Punct)
    requires Tame(c.rest)
    ensures Tame(Expect(c, p).rest)
    ensures Surplus(Expect(c, p).rest, 0) >= Surplus(c.rest, 0) - if Closer(P(p)) then 1 else 0
    ensures Accept(c, p).rest == Expect(c, p).rest
    ensures Next(c.rest, p) && p == Colon ==> !StartsCloser(Expect(c, p).rest)
  {
    hide Tame, Surplus;
    if Next(c.rest, p) {
      TameTail(c.rest);
    }
  }

  lemma {:induction false} UnaryKeeps(env: Env, c: Ctx)
    requires Tame(c.rest)
    ensures Keeps(c, Ev(env, 1, c).1)
    decreases |c.rest|, 3
  {
    hide Tame, Surplus, Ev, CodeNeg, CodeNot;
    EvUnary(env, c);
    if c.rest != [] && c.rest[0].P? && c.rest[0].p in {Op(Add), Op(Sub), Tilde, Bang} {
      TameTail(c.rest);
      EvKeeps(env, 1, Drop1(c));
    } else {
      EvKeeps(env, 0, c);
    }
  }

  lemma {:induction false} LpKeeps(env: Env, k: nat, v: Value, c: Ctx)
    requires 2 <= k <= 12 && Tame(c.rest)
    ensures KeepsAll(c, Lp(env, k, v, c).1)
    decreases |c.rest|, 3 * k
  {
    if c.rest != [] && c.rest[0].P? {
      TameTail(c.rest);
      if NextIsOp(c.rest, k) && k <= 9 {
        LpOpKeeps(env, k, v, c);
      } else if k == 10 && Next(c.rest, AndAnd) {
        LpAndKeeps(env, v, c);
      } else if k == 11 && Next(c.rest, OrOr) {
        LpOrKeeps(env, v, c);
      } else {
        hide Ev, CodeOp;
      }
    } else {
      hide Ev, CodeOp;
    }
  }

  lemma {:induction false} LpOpKeeps(env: Env, k: nat, v: Value, c: Ctx)
    requires 2 <= k <= 9 && Tame(c.rest) && NextIsOp(c.rest, k)
    ensures KeepsAll(c, Lp(env, k, v, c).1)
    decreases |c.rest|, 0
  {
    hide Tame, Surplus, Ev, CodeOp;
    TameTail(c.rest);
    EvKeeps(env, k - 1, Drop1(c));
    var (r, c1) := Ev(env, k - 1, Drop1(c));
    var s := CodeOp(c.rest[0].p.op, v, r);
    if !s.stop {
      LpKeeps(env, k, s.val, Errors(c1, s.errs));
    }
  }

  lemma {:induction false} LpAndKeeps(env: Env, v: Value, c: Ctx)
    requires Tame(c.rest) && Next(c.rest, AndAnd)
    ensures KeepsAll(c, Lp(env, 10, v, c).1)
    decreases |c.rest|, 0
  {
    hide Tame, Surplus, Ev, CodeOp, SkipExpr;
    TameTail(c.rest);
    var c1 := Drop1(c);
    if v.v == 0 {
      SkipKeeps(c1.rest, 0, 0);
      LpKeeps(env, 10, Bool(false), c1.(rest := SkipExpr(c1.rest, 0, 0)));
    } else {
      EvKeeps(env, 9, c1);
      LpKeeps(env, 10, Bool(Ev(env, 9, c1).0.v != 0), Ev(env, 9, c1).1);
    }
  }

  lemma {:induction false} LpOrKeeps(env: Env, v: Value, c: Ctx)
    requires Tame(c.rest) && Next(c.rest, OrOr)
    ensures KeepsAll(c, Lp(env, 11, v, c).1)
    decreases |c.rest|, 0
  {
    hide Tame, Surplus, Ev, CodeOp, SkipLogAnd;
    TameTail(c.rest);
    var c1 := Drop1(c);
    if v.v != 0 {
      SkipAndKeeps(c1.rest);
      LpKeeps(env, 11, Bool(true), c1.(rest := SkipLogAnd(c1.rest)));
    } else {
      EvKeeps(env, 10, c1);
      LpKeeps(env, 11, Bool(Ev(env, 10, c1).0.v != 0), Ev(env, 10, c1).1);
    }
  }

  lemma {:induction false} ConditionalKeeps(env: Env, c: Ctx)
    requires Tame(c.rest)
    ensures Keeps(c, Conditional(env, c).1)
    decreases |c.rest|, 37
  {
    hide Surplus, Ev, Lp, Arms;
    assert !Next(c.rest, Comma);
    EvKeeps(env, 11, c);
    var (v, c1) := Ev(env, 11, c);
    if Next(c1.rest, Question) {
      ArmsKeep(env, v.v != 0, c1);
    } else {
      LpKeeps(env, 12, v, c1);
    }
  }

  lemma {:induction false} ArmsKeep(env: Env, first: bool, c: Ctx)
    requires Next(c.rest, Question) && Tame(c.rest)
    ensures KeepsAll(c, Arms(env, first, c).1)
    decreases |c.rest|, 36
  {
    hide Surplus, Tame, Ev;
    TameTail(c.rest);
    var c1 := FirstArmState(first, c);
    EvKeeps(env, 12, c1);
    SecondArmKeeps(env, first, c);
  }

  /** The state in which the first arm is evaluated, and that in which the second is. */
  function FirstArmState(first: bool, c: Ctx): Ctx
    requires c.rest != []
  {
    if first then Drop1(c) else Drop1(c).(suppress := true)
  }

  function SecondArmState(env: Env, first: bool, c: Ctx): Ctx
    requires c.rest != []
  {
    var c1 := Drop1(c);
    if first then Accept(Ev(env, 12, c1).1, Colon).(suppress := true)
    else Accept(Ev(env, 12, c1.(suppress := true)).1.(hadError := c1.hadError, suppress := c.suppress), Colon)
  }

  /** What the arms leave is what the second leaves. */
  lemma ArmsRest(env: Env, first: bool, c: Ctx)
    requires Next(c.rest, Question)
    ensures Arms(env, first, c).1.rest == Ev(env, 12, SecondArmState(env, first, c)).1.rest
    ensures SecondArmState(env, first, c).rest == Expect(Ev(env, 12, FirstArmState(first, c)).1, Colon).rest
  {
    hide Ev;
  }

  /** After a first arm that leaves g, at most one closing token of g is taken. */
  lemma {:induction false} SecondArmKeeps(env: Env, first: bool, c: Ctx)
    requires Next(c.rest, Question) && Tame(Ev(env, 12, FirstArmState(first, c)).1.rest)
    ensures var (g, r) := (Ev(env, 12, FirstArmState(first, c)).1.rest, Arms(env, first, c).1.rest);
            Tame(r) && Surplus(r, 0) >= Surplus(g, 0) - if StartsCloser(g) then 1 else 0
    decreases |c.rest|, 35
  {
    hide Surplus, Tame, Ev, Arms;
    ArmsRest(env, first, c);
    ExpectTakes(Ev(env, 12, FirstArmState(first, c)).1, Colon);
    EvKeeps(env, 12, SecondArmState(env, first, c));
  }

  // ---- getting out of step ----

  /** Where the evaluator stops after a jam in a phrase of level k that f follows: more closing
      tokens are left than f has, or it stands at a multiplicative operator. */
  predicate Stuck(k: nat, r: seq<Tok>, f: seq<Tok>) {
    Tame(r) && (Surplus(r, 0) > Surplus(f, 0) || (k >= 2 && NextIsOp(r, 2) && Surplus(r, 0) == Surplus(f, 0)))
  }

  /** The operand loop of level k cannot get out of it. */
  lemma StuckLoop(env: Env, k: nat, v: Value, c: Ctx, f: seq<Tok>)
    requires 2 <= k <= 12 && Stuck(k - 1, c.rest, f)
    ensures Stuck(k, Lp(env, k, v, c).1.rest, f)
  {
    LpKeeps(env, k, v, c);
    if NextIsOp(c.rest, 2) && k >= 3 {
      StopsAtOperator(env, k, v, c);
    }
    hide Tame, Surplus, Lp;
  }

  lemma StopsAtOperator(env: Env, k: nat, v: Value, c: Ctx)
    requires 3 <= k <= 12 && NextIsOp(c.rest, 2)
    ensures Lp(env, k, v, c) == (v, c)
  {}

  /** Nor can any higher level. */
  lemma StuckUp(env: Env, k: nat, c: Ctx, f: seq<Tok>)
    requires 1 <= k <= 12 && Tame(c.rest) && Stuck(k - 1, Ev(env, k - 1, c).1.rest, f)
    requires k == 1 ==> c.rest != [] && !(c.rest[0].P? && c.rest[0].p in {Op(Add), Op(Sub), Tilde, Bang})
    ensures Stuck(k, Ev(env, k, c).1.rest, f)
  {
    hide Tame, Surplus, Lp, Ev;
    if k == 1 {
      EvUnary(env, c);
    } else if k <= 11 {
      EvUp(env, k, c);
      StuckLoop(env, k, Ev(env, k - 1, c).0, Ev(env, k - 1, c).1, f);
    } else {
      StuckLast(env, c, f);
    }
  }

  lemma StuckLast(env: Env, c: Ctx, f: seq<Tok>)
    requires Tame(c.rest) && Stuck(11, Ev(env, 11, c).1.rest, f)
    ensures Stuck(12, Ev(env, 12, c).1.rest, f)
  {
    var (v, c1) := Ev(env, 11, c);
    assert !Next(c.rest, Comma);
    assert Ev(env, 12, c) == Conditional(env, c);
    hide Tame, Surplus, Lp, Ev, Arms;
    if Next(c1.rest, Question) {
      ArmsKeep(env, v.v != 0, c1);
    } else {
      StuckLoop(env, 12, v, c1, f);
    }
  }

  /** After a jam the evaluator does not stop behind the phrase. */
  lemma {:induction false} JamLeaves(env: Env, k: nat, e: Expr, f: seq<Tok>, c: Ctx)
    requires WellFormed(e) && Lvl(e) <= k <= 12 && Jams(env, e) && c.rest == Toks(e) + f
    requires Tame(f) && !Next(f, LParen) && (k == 12 ==> FollowOK(12, f))
    ensures Stuck(k, Ev(env, k, c).1.rest, f)
    decreases Size(e), k, 3
  {
    hide Tame, Surplus, Reading, Toks, Ev;
    if Lvl(e) < k {
      TreeTame(e, f);
      FirstToken(e);
      assert c.rest[0] == Toks(e)[0];
      JamLeaves(env, k - 1, e, f, c);
      StuckUp(env, k, c, f);
    } else {
      match e {
        case Paren(_) => JamInParen(env, e, f, c);
        case Unary(_, _) => JamInUnary(env, e, f, c);
        case Cond(_, _, _) => JamInCond(env, e, f, c);
        case Binary(_, _, _) => JamInTwo(env, e, f, c);
        case LAnd(_, _) => JamInTwo(env, e, f, c);
        case LOr(_, _) => JamInTwo(env, e, f, c);
        case _ => assert false;
      }
    }
  }

  lemma {:induction false} JamInParen(env: Env, e: Expr, f: seq<Tok>, c: Ctx)
    requires e.Paren? && WellFormed(e) && Jams(env, e) && c.rest == Toks(e) + f && Tame(f) && !Next(f, LParen)
    ensures Stuck(0, Ev(env, 0, c).1.rest, f)
    decreases Size(e), 0, 2
  {
    var g := [P(RParen)] + f;
    ParenToks(e.e, f);
    assert Jams(env, e.e) && Size(e.e) < Size(e) && WellFormed(e.e);
    hide Tame, Surplus, Reading, Toks, Jams, WellFormed, Size, CodeOp, Lp, Conditional;
    TameCons(P(RParen), f);
    SurplusCons(P(RParen), f, 0);
    assert Ev(env, 0, c) == Primary(env, c);
    hide Ev;
    JamLeaves(env, 12, e.e, g, Drop1(c));
    ExpectTakes(Ev(env, 12, Drop1(c)).1, RParen);
  }

  lemma {:induction false} JamInUnary(env: Env, e: Expr, f: seq<Tok>, c: Ctx)
    requires e.Unary? && WellFormed(e) && Jams(env, e) && c.rest == Toks(e) + f && Tame(f) && !Next(f, LParen)
    ensures Stuck(1, Ev(env, 1, c).1.rest, f)
    decreases Size(e), 1, 2
  {
    assert Toks(e) + f == [UnTok(e.uop)] + (Toks(e.e) + f) && (Toks(e) + f)[1..] == Toks(e.e) + f;
    assert Jams(env, e.e) && Size(e.e) < Size(e) && WellFormed(e.e) && Lvl(e.e) <= 1;
    hide Tame, Surplus, Reading, Toks, Jams, WellFormed, Size, Ev, CodeNeg, CodeNot;
    JamLeaves(env, 1, e.e, f, Drop1(c));
    EvUnary(env, c);
  }

  /** A division by zero in front of another multiplicative operator: the loop is left there. */
  lemma {:induction false} ZeroDivStops(env: Env, e: Expr, g: seq<Tok>, c: Ctx)
    requires WellFormed(e) && !Jams(env, e) && ZeroDiv(env, e)
    requires FollowOK(1, g) && !Next(g, Question) && c.rest == Toks(e) + g
    ensures Ev(env, 2, c).1.rest == g
  {
    var h := Toks(e.r) + g;
    var t := Between(e);
    var (dl, dr) := (Reading(env, e.l), Reading(env, e.r));
    assert Ready(env, 2, e.l, [t] + h) && WellFormed(e.r) && Lvl(e.r) <= 1 && !Jams(env, e.r);
    hide CodeOp, Reading, Jams, WellFormed, Toks, Ready, EndsSkipped, Ev;
    BinaryToks(e, g);
    ReadingOfTwo(env, e);
    RunLeft(env, e, e.l, t, h, c);
    var c1 := After(c, [t] + h, dl.errs);
    AfterAfter(c, [t] + h, g, dl.errs, 0);
    RunRight(env, e, e.r, g, Drop1(c1));
    StopIsZeroDiv(e.op, dl.v, dr.v);
    AfterAfter(Drop1(c1), g, g, dr.errs, 0);
  }

  lemma TwoSurplus(e: Expr, f: seq<Tok>)
    requires e.Binary? || e.LAnd? || e.LOr?
    ensures Surplus([Between(e)] + (Toks(e.r) + f), 0) == Surplus(f, 0)
  {
    hide Surplus, Toks;
    SurplusCons(Between(e), Toks(e.r) + f, 0);
    TreeBalanced(e.r, f, 0);
  }

  lemma {:induction false} JamInTwo(env: Env, e: Expr, f: seq<Tok>, c: Ctx)
    requires (e.Binary? || e.LAnd? || e.LOr?) && WellFormed(e) && Jams(env, e)
    requires c.rest == Toks(e) + f && Tame(f) && !Next(f, LParen)
    ensures Stuck(Lvl(e), Ev(env, Lvl(e), c).1.rest, f)
    decreases Size(e), Lvl(e), 2
  {
    var g := [Between(e)] + (Toks(e.r) + f);
    BinaryToks(e, f);
    TwoTame(e, f);
    TwoSurplus(e, f);
    ReadingOfTwo(env, e);
    assert WellFormed(e.l) && Lvl(e.l) <= Lvl(e);
    if Jams(env, e.l) {
      hide Tame, Surplus, Reading, Jams, WellFormed, Toks, Ev;
      JamLeaves(env, Lvl(e), e.l, g, c);
    } else if Lvl(e) == 2 && ZeroDiv(env, e.l) {
      hide Tame, Surplus, Reading, Jams, WellFormed, Toks, Ev;
      ZeroDivStops(env, e.l, g, c);
    } else {
      JamOnRight(env, e, f, c);
    }
  }

  lemma {:induction false} JamOnRight(env: Env, e: Expr, f: seq<Tok>, c: Ctx)
    requires (e.Binary? || e.LAnd? || e.LOr?) && WellFormed(e) && Jams(env, e) && !Jams(env, e.l)
    requires !(Lvl(e) == 2 && ZeroDiv(env, e.l))
    requires c.rest == Toks(e) + f && Tame(f) && !Next(f, LParen)
    ensures Stuck(Lvl(e), Ev(env, Lvl(e), c).1.rest, f)
    decreases Size(e), Lvl(e), 1
  {
    hide CodeOp, Reading, Jams, WellFormed, Toks, Ready, EndsSkipped, Ev, Tame, Surplus, Lp, Size;
    var (t, h) := (Between(e), Toks(e.r) + f);
    BinaryToks(e, f);
    RightParts(env, e, h);
    var dl := Reading(env, e.l);
    RunLeft(env, e, e.l, t, h, c);
    var c1 := After(c, [t] + h, dl.errs);
    AfterAfter(c, [t] + h, f, dl.errs, 0);
    JamLeaves(env, Lvl(e) - 1, e.r, f, Drop1(c1));
    LoopAfterOperand(env, e, dl.v, c1, f);
  }

  lemma RightParts(env: Env, e: Expr, h: seq<Tok>)
    requires (e.Binary? || e.LAnd? || e.LOr?) && WellFormed(e) && Jams(env, e) && !Jams(env, e.l)
    requires !(Lvl(e) == 2 && ZeroDiv(env, e.l))
    ensures 2 <= Lvl(e) <= 11 && Ready(env, Lvl(e), e.l, [Between(e)] + h) && Size(e.l) < Size(e) && Size(e.r) < Size(e)
    ensures WellFormed(e.r) && Lvl(e.r) < Lvl(e) && Jams(env, e.r)
    ensures e.Binary? || (Reading(env, e.l).v.v == 0) == e.LOr?
  {
    hide Reading, Toks;
  }

  /** The loop goes on behind an operand that jammed. */
  lemma LoopAfterOperand(env: Env, e: Expr, v: Value, c: Ctx, f: seq<Tok>)
    requires (e.Binary? || e.LAnd? || e.LOr?) && c.rest != [] && c.rest[0] == Between(e)
    requires e.Binary? || (v.v == 0) == e.LOr?
    requires Stuck(Lvl(e) - 1, Ev(env, Lvl(e) - 1, Drop1(c)).1.rest, f)
    ensures Stuck(Lvl(e), Lp(env, Lvl(e), v, c).1.rest, f)
  {
    hide CodeOp, Ev, Tame, Surplus;
    var k := Lvl(e);
    var (r, c1) := Ev(env, k - 1, Drop1(c));
    if e.Binary? {
      var s := CodeOp(e.op, v, r);
      StuckLoop(env, k, s.val, Errors(c1, s.errs), f);
    } else {
      StuckLoop(env, k, Bool(r.v != 0), c1, f);
    }
  }

  lemma CondSurplus(e: Expr, f: seq<Tok>)
    requires e.Cond?
    ensures var g := [P(Colon)] + (Toks(e.b) + f);
            Surplus(g, 0) == Surplus(f, 0) + 1 && Surplus([P(Question)] + (Toks(e.a) + g), 0) == Surplus(f, 0)
  {
    hide Surplus, Toks;
    var g := [P(Colon)] + (Toks(e.b) + f);
    SurplusCons(P(Colon), Toks(e.b) + f, 0);
    TreeBalanced(e.b, f, 0);
    SurplusCons(P(Question), Toks(e.a) + g, 0);
    TreeBalanced(e.a, g, 0);
  }

  lemma {:induction false} JamInCond(env: Env, e: Expr, f: seq<Tok>, c: Ctx)
    requires e.Cond? && WellFormed(e) && Jams(env, e) && c.rest == Toks(e) + f && Tame(f) && FollowOK(12, f)
    ensures Stuck(12, Ev(env, 12, c).1.rest, f)
    decreases Size(e), 12, 2
  {
    assert WellFormed(e.c) && Lvl(e.c) <= 11 && Size(e.c) < Size(e);
    if Jams(env, e.c) {
      hide Tame, Surplus, Reading, Jams, WellFormed, Toks, Ev, Size, Lvl;
      var g := [P(Question)] + (Toks(e.a) + ([P(Colon)] + (Toks(e.b) + f)));
      CondToks(e, f);
      CondTame(e, f);
      CondSurplus(e, f);
      JamLeaves(env, 11, e.c, g, c);
      StuckUp(env, 12, c, g);
    } else if EndsSkipped(env, e.c) {
      var r := Resume(e.b).value;
      assert Jams(env, r) && WellFormed(r) && Size(r) < Size(e) && Reading(env, e.c).v.v == 0;
      hide Tame, Surplus, Reading, Jams, WellFormed, Toks, Ev, Size, Lvl;
      Resumed(env, e, f, c);
      JamLeaves(env, 12, r, f, After(c, Toks(r) + f, Reading(env, e.c).errs));
    } else {
      JamInArm(env, e, f, c);
    }
  }

  lemma {:induction false} JamInArm(env: Env, e: Expr, f: seq<Tok>, c: Ctx)
    requires e.Cond? && WellFormed(e) && Jams(env, e) && c.rest == Toks(e) + f && Tame(f) && FollowOK(12, f)
    requires !Jams(env, e.c) && !EndsSkipped(env, e.c)
    ensures Stuck(12, Ev(env, 12, c).1.rest, f)
    decreases Size(e), 12, 1
  {
    hide Tame, Surplus, Reading, Jams, WellFormed, Toks, Ev, Size, Lvl, EndsSkipped, Arms, Lp;
    ArmParts(env, e);
    var g := RunCondition(env, e, f, c);
    var h := [P(Colon)] + (Toks(e.b) + f);
    var first := Reading(env, e.c).v.v != 0;
    var c1 := After(c, g, Reading(env, e.c).errs);
    AfterRest(c, g, Reading(env, e.c).errs);
    ConditionalIs(env, c, Reading(env, e.c).v, c1);
    CondTame(e, f);
    CondSurplus(e, f);
    if Jams(env, e.a) {
      JamLeaves(env, 12, e.a, h, FirstArmState(first, c1));
      SecondArmKeeps(env, first, c1);
    } else {
      EvaluatorReads(env, 12, e.a, h, FirstArmState(first, c1));
      AfterRest(FirstArmState(first, c1), h, Reading(env, e.a).errs);
      ArmsRest(env, first, c1);
      assert h[1..] == Toks(e.b) + f;
      JamLeaves(env, 12, e.b, f, SecondArmState(env, first, c1));
    }
  }

  lemma ArmParts(env: Env, e: Expr)
    requires e.Cond? && WellFormed(e) && Jams(env, e) && !Jams(env, e.c) && !EndsSkipped(env, e.c)
    ensures WellFormed(e.a) && WellFormed(e.b) && Size(e.a) < Size(e) && Size(e.b) < Size(e)
    ensures Jams(env, e.a) || Jams(env, e.b)
  {
    hide Reading, EndsSkipped;
  }
}
