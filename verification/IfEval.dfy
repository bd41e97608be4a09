/** The recursive-descent evaluator of #if expressions, as functions on the tokens that are left
    (white space removed). The levels of the grammar are numbered: 0 primary, 1 unary,
    2 multiplicative up to 9 inclusive-or, 10 logical and, 11 logical or, 12 conditional. */
module IfEval {
  import opened IntMax
  import opened Bits
  import opened IntLiteral

  datatype Punct =
    | LParen | RParen | Comma | Question | Colon | OrOr | AndAnd | Tilde | Bang
    | Op(op: BinOp)
    | OtherPunct(spell: string)

  /** A token of the directive line. A character constant arrives decoded, with the number of
      errors that decoding it raises. */
  datatype Tok =
    | White
    | PpNumber(spell: string)
    | CharConst(val: Value, errs: nat)
    | Ident(name: string)
    | P(p: Punct)
    | OtherTok(spell: string)

  /** What the evaluator reads besides the tokens: the macros that are defined, and the answers
      of the __has_* tables as pairs of operator and argument. */
  datatype Env = Env(defined: set<string>, tables: set<(string, string)>)

  const HAS_FAMILY := {"__has_builtin", "__has_feature", "__has_extension", "__has_attribute",
                       "__has_c_attribute", "__has_cpp_attribute", "__has_include", "__has_include_next"}

  const HAS_OPERATORS := {"__has_builtin", "__has_feature", "__has_extension", "__has_attribute",
                          "__has_c_attribute", "__has_cpp_attribute"}

  /** The operators for which the evaluator has no table and answers 0. */
  const WITHOUT_TABLE := {"__has_c_attribute", "__has_cpp_attribute"}

  /** The evaluator's state: tokens left, whether an error was seen, the number of diagnostics
      pushed, and whether diagnostics are suppressed. */
  datatype Ctx = Ctx(rest: seq<Tok>, hadError: bool, diags: nat, suppress: bool)

  function Level(op: BinOp): (k: nat)
    ensures 2 <= k <= 9
  {
    match op
    case Mul | Div | Rem => 2
    case Add | Sub => 3
    case Shl | Shr => 4
    case Lt | Gt | Le | Ge => 5
    case Eq | Ne => 6
    case BitAnd => 7
    case BitXor => 8
    case BitOr => 9
  }

  /** The precedence of C11 sections 6.5.5 to 6.5.12. */
  lemma LevelsAreStandard()
    ensures Level(Mul) == Level(Div) == Level(Rem) < Level(Add) == Level(Sub) < Level(Shl) == Level(Shr)
    ensures Level(Shr) < Level(Lt) == Level(Gt) == Level(Le) == Level(Ge) < Level(Eq) == Level(Ne)
    ensures Level(Ne) < Level(BitAnd) < Level(BitXor) < Level(BitOr)
  {}

  predicate Next(s: seq<Tok>, p: Punct) { s != [] && s[0] == P(p) }

  predicate NextIsOp(s: seq<Tok>, k: nat) {
    s != [] && s[0].P? && s[0].p.Op? && Level(s[0].p.op) == k
  }

  /** n errors raised in state c. */
  function Errors(c: Ctx, n: nat): Ctx {
    if n == 0 then c else c.(hadError := true, diags := if c.suppress then c.diags else c.diags + n)
  }

  function Drop1(c: Ctx): Ctx
    requires c.rest != []
  {
    c.(rest := c.rest[1..])
  }

  /** Takes p if it comes next. */
  function Accept(c: Ctx, p: Punct): Ctx { if Next(c.rest, p) then Drop1(c) else c }

  /** Takes p, or raises an error. */
  function Expect(c: Ctx, p: Punct): Ctx { if Next(c.rest, p) then Drop1(c) else Errors(c, 1) }

  predicate IsDefined(env: Env, name: string) { name in HAS_FAMILY || name in env.defined }

  /** Skips to the parenthesis that closes `depth` open ones. */
  function SkipCall(s: seq<Tok>, depth: nat): (r: seq<Tok>)
    ensures |r| <= |s|
  {
    if s == [] || depth == 0 then s
    else SkipCall(s[1..], if s[0] == P(LParen) then depth + 1 else if s[0] == P(RParen) then depth - 1 else depth)
  }

  /** The argument of a __has_* operator without its double underscores. */
  function StripUnderscores(arg: string): string {
    var inner := if |arg| > 4 && arg[..2] == "__" && arg[|arg| - 2..] == "__" then arg[2..|arg| - 2] else arg;
    if |inner| < 128 then inner else ""
  }

  /** A __has_* operator: its argument, and what is left after its parentheses. */
  function HasArgument(s: seq<Tok>): (r: (string, seq<Tok>))
    ensures |r.1| <= |s|
  {
    if !Next(s, LParen) then ("", s)
    else if |s| == 1 then ("", [])
    else (if s[1].Ident? then StripUnderscores(s[1].name) else "", SkipCall(s[2..], 1))
  }

  /** `defined NAME` or `defined (NAME)`, after the word `defined`. */
  function DefinedOp(env: Env, c: Ctx): (r: (Value, Ctx))
    ensures |r.1.rest| <= |c.rest| && (c.hadError ==> r.1.hadError)
  {
    var paren := Next(c.rest, LParen);
    var c1 := Accept(c, LParen);
    if c1.rest == [] then (Signed(0), Errors(c1, 1))
    else if !c1.rest[0].Ident? then
      var c2 := Errors(Drop1(c1), 1);
      (Signed(0), if paren then Accept(c2, RParen) else c2)
    else
      var c2 := Drop1(c1);
      (Bool(IsDefined(env, c1.rest[0].name)), if paren then Expect(c2, RParen) else c2)
  }

  /** Skips an operand that short-circuiting leaves unevaluated. */
  function SkipExpr(s: seq<Tok>, depth: nat, tern: nat): (r: seq<Tok>)
    ensures |r| <= |s|
  {
    if s == [] then s
    else if s[0] == P(LParen) then SkipExpr(s[1..], depth + 1, tern)
    else if s[0] == P(RParen) then (if depth == 0 then s else SkipExpr(s[1..], depth - 1, tern))
    else if s[0] == P(Comma) && depth == 0 then s
    else if s[0] == P(Question) && depth == 0 then SkipExpr(s[1..], depth, tern + 1)
    else if s[0] == P(Colon) && depth == 0 then (if tern == 0 then s else SkipExpr(s[1..], depth, tern - 1))
    else if (s[0] == P(OrOr) || s[0] == P(AndAnd)) && depth == 0 && tern == 0 then s
    else SkipExpr(s[1..], depth, tern)
  }

  /** Skips operands joined by `&&`. */
  function SkipLogAnd(s: seq<Tok>): (r: seq<Tok>)
    ensures |r| <= |s|
    decreases |s|
  {
    var s1 := SkipExpr(s, 0, 0);
    if Next(s1, AndAnd) then SkipLogAnd(s1[1..]) else s1
  }

  /** Unary minus on the bit pattern; negating INTMAX_MIN is an error. */
  function CodeNeg(x: Value): Step {
    if x.uns then Step(Value(ToI(Low(0 - ToU(x.v))), true), 0, false)
    else Step(Signed(Wrap(0 - x.v)), if x.v == -TWO63 then 1 else 0, false)
  }

  function CodeNot(x: Value): Value { x.(v := -1 - x.v) }

  /** A level of the grammar, from its first token on. */
  function Ev(env: Env, k: nat, c: Ctx): (r: (Value, Ctx))
    requires k <= 12
    ensures |r.1.rest| <= |c.rest| && (c.hadError ==> r.1.hadError)
    decreases |c.rest|, 3 * k + 2
  {
    if k == 0 then Primary(env, c)
    else if k == 1 then Unary(env, c)
    else if k == 12 then Conditional(env, c)
    else
      var (v, c1) := Ev(env, k - 1, c);
      Lp(env, k, v, c1)
  }

  function Primary(env: Env, c: Ctx): (r: (Value, Ctx))
    ensures |r.1.rest| <= |c.rest| && (c.hadError ==> r.1.hadError)
    decreases |c.rest|, 0
  {
    if c.rest == [] then (Signed(0), c.(hadError := true))
    else
      var c1 := Drop1(c);
      match c.rest[0]
      case P(LParen) =>
        var (v, c2) := Ev(env, 12, c1);
        (v, Expect(c2, RParen))
      case Ident(name) =>
        if name == "defined" then DefinedOp(env, c1)
        else if name in HAS_OPERATORS then
          var (arg, s) := HasArgument(c1.rest);
          (Bool(name !in WITHOUT_TABLE && (name, arg) in env.tables), c1.(rest := s))
        else (Signed(0), if Next(c1.rest, LParen) then c1.(rest := SkipCall(c1.rest[1..], 1)) else c1)
      case PpNumber(sp) => (Literal(sp), Errors(c1, if Overflows(sp) then 1 else 0))
      case CharConst(v, n) => (v, Errors(c1, n))
      case _ => (Signed(0), Errors(c1, 1))
  }

  function Unary(env: Env, c: Ctx): (r: (Value, Ctx))
    ensures |r.1.rest| <= |c.rest| && (c.hadError ==> r.1.hadError)
    decreases |c.rest|, 3
  {
    if Next(c.rest, Op(Add)) then Ev(env, 1, Drop1(c))
    else if Next(c.rest, Op(Sub)) then
      var (x, c1) := Ev(env, 1, Drop1(c));
      var s := CodeNeg(x);
      (s.val, Errors(c1, s.errs))
    else if Next(c.rest, Tilde) then
      var (x, c1) := Ev(env, 1, Drop1(c));
      (CodeNot(x), c1)
    else if Next(c.rest, Bang) then
      var (x, c1) := Ev(env, 1, Drop1(c));
      (Bool(x.v == 0), c1)
    else Ev(env, 0, c)
  }

  /** The operand loop of level k, with the value v of the operands taken so far. Level 12 is
      the comma operator that the evaluator tolerates. */
  function Lp(env: Env, k: nat, v: Value, c: Ctx): (r: (Value, Ctx))
    requires 2 <= k <= 12
    ensures |r.1.rest| <= |c.rest| && (c.hadError ==> r.1.hadError)
    decreases |c.rest|, 3 * k
  {
    if k <= 9 && NextIsOp(c.rest, k) then
      var (r, c1) := Ev(env, k - 1, Drop1(c));
      var s := CodeOp(c.rest[0].p.op, v, r);
      if s.stop then (s.val, Errors(c1, s.errs)) else Lp(env, k, s.val, Errors(c1, s.errs))
    else if k == 10 && Next(c.rest, AndAnd) then
      var c1 := Drop1(c);
      if v.v == 0 then Lp(env, k, Bool(false), c1.(rest := SkipExpr(c1.rest, 0, 0)))
      else
        var (r, c2) := Ev(env, 9, c1);
        Lp(env, k, Bool(r.v != 0), c2)
    else if k == 11 && Next(c.rest, OrOr) then
      var c1 := Drop1(c);
      if v.v != 0 then Lp(env, k, Bool(true), c1.(rest := SkipLogAnd(c1.rest)))
      else
        var (r, c2) := Ev(env, 10, c1);
        Lp(env, k, Bool(r.v != 0), c2)
    else if k == 12 && Next(c.rest, Comma) then
      var c1 := Drop1(c);
      if c1.rest == [] then (v, c1)
      else
        var (r, c2) := Ev(env, 11, c1);
        Lp(env, k, r, c2)
    else (v, c)
  }

  /** The selected arm with the signedness that the usual conversions give both arms. */
  function Select(first: bool, a: Value, b: Value): Value {
    (if first then a else b).(uns := a.uns || b.uns)
  }

  function Conditional(env: Env, c: Ctx): (r: (Value, Ctx))
    ensures |r.1.rest| <= |c.rest| && (c.hadError ==> r.1.hadError)
    decreases |c.rest|, 37
  {
    if Next(c.rest, Comma) then
      var (v, c1) := Ev(env, 11, Drop1(c));
      Lp(env, 12, v, c1)
    else
      var (cond, c1) := Ev(env, 11, c);
      if !Next(c1.rest, Question) then Lp(env, 12, cond, c1)
      else Arms(env, cond.v != 0, c1)
  }

  /** Both arms of a conditional; the one that is not selected is evaluated for its signedness
      with diagnostics suppressed and its errors forgotten. */
  function Arms(env: Env, first: bool, c: Ctx): (r: (Value, Ctx))
    requires Next(c.rest, Question)
    ensures |r.1.rest| <= |c.rest| && (c.hadError ==> r.1.hadError)
    decreases |c.rest|, 36
  {
    var c1 := Drop1(c);
    if first then
      var (a, c2) := Ev(env, 12, c1);
      var c3 := Accept(c2, Colon);
      var (b, c4) := Ev(env, 12, c3.(suppress := true));
      (Select(true, a, b), c4.(hadError := c3.hadError, suppress := c.suppress))
    else
      var (a, c2) := Ev(env, 12, c1.(suppress := true));
      var c3 := Accept(c2.(hadError := c1.hadError, suppress := c.suppress), Colon);
      var (b, c4) := Ev(env, 12, c3);
      (Select(false, a, b), c4)
  }

  /** A whole directive line: its value and whether it is in error. */
  function IfExpr(env: Env, toks: seq<Tok>): (Value, bool) {
    if toks == [] then (Signed(0), true)
    else
      var (v, c) := Ev(env, 12, Ctx(toks, false, 0, false));
      (v, c.hadError || c.rest != [])
  }
}
