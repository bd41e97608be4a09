/** Derivation trees of the C11 6.10.1 grammar: the meaning that C gives them, and the reading that
    the evaluator gives them, which differs where skipping an operand goes on into the arms of a
    conditional and where an error check is wrong. */
module IfTrees {
  import opened Bits
  import opened IntMax
  import opened IntLiteral
  import opened IntConstant
  import opened IfEval
  import opened Options

  datatype UnOp = Plus | Minus | Compl | Not

  datatype Expr =
    | Number(spell: string)
    | Char(val: Value, errs: nat)
    | Name(id: string)
    | Defined(id: string, parens: bool)
    | Paren(e: Expr)
    | Unary(uop: UnOp, e: Expr)
    | Binary(op: BinOp, l: Expr, r: Expr)
    | LAnd(l: Expr, r: Expr)
    | LOr(l: Expr, r: Expr)
    | Cond(c: Expr, a: Expr, b: Expr)

  /** The level of the grammar that derives a tree. */
  function Lvl(e: Expr): (k: nat)
    ensures k <= 12
  {
    match e
    case Unary(_, _) => 1
    case Binary(op, _, _) => Level(op)
    case LAnd(_, _) => 10
    case LOr(_, _) => 11
    case Cond(_, _, _) => 12
    case _ => 0
  }

  /** A derivation of the grammar: operands stand at the levels that precedence and left
      associativity ask for, so parentheses occur where they are needed and anywhere else. */
  predicate WellFormed(e: Expr) {
    match e
    case Name(id) => id != "defined" && id !in HAS_OPERATORS
    case Paren(x) => WellFormed(x)
    case Unary(_, x) => WellFormed(x) && Lvl(x) <= 1
    case Binary(op, l, r) => WellFormed(l) && WellFormed(r) && Lvl(l) <= Level(op) && Lvl(r) < Level(op)
    case LAnd(l, r) => WellFormed(l) && WellFormed(r) && Lvl(l) <= 10 && Lvl(r) <= 9
    case LOr(l, r) => WellFormed(l) && WellFormed(r) && Lvl(l) <= 11 && Lvl(r) <= 10
    case Cond(c, a, b) => WellFormed(c) && WellFormed(a) && WellFormed(b) && Lvl(c) <= 11
    case _ => true
  }

  function UnTok(op: UnOp): Tok {
    match op
    case Plus => P(Op(Add))
    case Minus => P(Op(Sub))
    case Compl => P(Tilde)
    case Not => P(Bang)
  }

  /** The tokens that a tree derives. */
  function Toks(e: Expr): (s: seq<Tok>)
    ensures s != []
  {
    match e
    case Number(sp) => [PpNumber(sp)]
    case Char(v, n) => [CharConst(v, n)]
    case Name(id) => [Ident(id)]
    case Defined(id, parens) =>
      if parens then [Ident("defined"), P(LParen), Ident(id), P(RParen)] else [Ident("defined"), Ident(id)]
    case Paren(x) => [P(LParen)] + Toks(x) + [P(RParen)]
    case Unary(op, x) => [UnTok(op)] + Toks(x)
    case Binary(op, l, r) => Toks(l) + [P(Op(op))] + Toks(r)
    case LAnd(l, r) => Toks(l) + [P(AndAnd)] + Toks(r)
    case LOr(l, r) => Toks(l) + [P(OrOr)] + Toks(r)
    case Cond(c, a, b) => Toks(c) + [P(Question)] + Toks(a) + [P(Colon)] + Toks(b)
  }

  /** The meaning of a tree: its value, and the number of errors in what is evaluated. Where there is
      an error, C11 gives no value, and that of the evaluator stands in for it. */
  datatype Den = Den(v: Value, errs: nat)

  /** The int that C11 makes of a truth value. */
  function Truth(b: bool): Value { Value(if b then 1 else 0, false) }

  /** The names that count as defined without a definition, so that `#ifdef __has_include` can be asked. */
  const HAS_NAMES := {"__has_builtin", "__has_feature", "__has_extension", "__has_attribute",
                      "__has_c_attribute", "__has_cpp_attribute", "__has_include", "__has_include_next"}

  function MathUn(op: UnOp, x: Value): Den {
    match op
    case Plus => Den(x, 0)
    case Minus => var s := Store(-Num(x), x.uns); Den(s.val, s.errs)
    case Compl => Den(Value(Wrap(-1 - Num(x)), x.uns), 0)
    case Not => Den(Truth(Num(x) == 0), 0)
  }

  ghost function Meaning(env: Env, e: Expr): Den {
    match e
    case Number(sp) => var (v, errs) := ConstantMeaning(sp); Den(v, errs)
    case Char(v, n) => Den(v, n)
    case Name(_) => Den(Value(0, false), 0)
    case Defined(id, _) => Den(Truth(id in env.defined || id in HAS_NAMES), 0)
    case Paren(x) => Meaning(env, x)
    case Unary(op, x) =>
      var d := Meaning(env, x);
      var u := MathUn(op, d.v);
      Den(u.v, d.errs + u.errs)
    case Binary(op, l, r) =>
      var (dl, dr) := (Meaning(env, l), Meaning(env, r));
      var s := MathOp(op, dl.v, dr.v);
      Den(s.val, dl.errs + dr.errs + s.errs)
    case LAnd(l, r) =>
      var (dl, dr) := (Meaning(env, l), Meaning(env, r));
      if Num(dl.v) == 0 then Den(Truth(false), dl.errs) else Den(Truth(Num(dr.v) != 0), dl.errs + dr.errs)
    case LOr(l, r) =>
      var (dl, dr) := (Meaning(env, l), Meaning(env, r));
      if Num(dl.v) != 0 then Den(Truth(true), dl.errs) else Den(Truth(Num(dr.v) != 0), dl.errs + dr.errs)
    case Cond(c, a, b) =>
      var (dc, da, db) := (Meaning(env, c), Meaning(env, a), Meaning(env, b));
      var first := Num(dc.v) != 0;
      var chosen := if first then da else db;
      Den(Value(Wrap(Num(chosen.v)), da.v.uns || db.v.uns), dc.errs + chosen.errs)
  }

  // ---- what the evaluator makes of a tree ----

  /** The number of nodes. */
  function Size(e: Expr): (n: nat)
    ensures n > 0
  {
    match e
    case Paren(x) => 1 + Size(x)
    case Unary(_, x) => 1 + Size(x)
    case Binary(_, l, r) => 1 + Size(l) + Size(r)
    case LAnd(l, r) => 1 + Size(l) + Size(r)
    case LOr(l, r) => 1 + Size(l) + Size(r)
    case Cond(c, a, b) => 1 + Size(c) + Size(a) + Size(b)
    case _ => 1
  }

  const FALSE := Number("0")

  /** What is left of a tree when its tokens are skipped up to the first `||` outside parentheses:
      0 stands for what was skipped. Nothing is left when there is no such `||`. */
  function Resume(e: Expr): (r: Option<Expr>)
    ensures r.Some? ==> Size(r.value) <= Size(e) && Lvl(r.value) <= Lvl(e) && (WellFormed(e) ==> WellFormed(r.value))
    ensures r.Some? ==> Lvl(e) >= 11
  {
    match e
    case LOr(l, r) => if Resume(l).Some? then Some(LOr(Resume(l).value, r)) else Some(LOr(FALSE, r))
    case Cond(c, a, b) => if Resume(c).Some? then Some(Cond(Resume(c).value, a, b)) else Resume(b)
    case _ => None
  }

  function ReadUn(op: UnOp, x: Value): Den {
    match op
    case Plus => Den(x, 0)
    case Minus => Den(CodeNeg(x).val, CodeNeg(x).errs)
    case Compl => Den(CodeNot(x), 0)
    case Not => Den(Bool(x.v == 0), 0)
  }

  /** The last operand of a condition is skipped by short-circuiting. Skipping does not stop at a
      `?` but goes on into the arms. */
  predicate EndsSkipped(env: Env, e: Expr)
    decreases Size(e), 0
  {
    match e
    case LAnd(l, _) => Reading(env, l).v.v == 0
    case LOr(l, r) => Reading(env, l).v.v != 0 || EndsSkipped(env, r)
    case _ => false
  }

  /** The value and the errors that the evaluator gives a tree: its own operators, and for a
      conditional whose condition ends skipped the condition alone, or, when that is false, what
      is left of the second arm from its first `||` on. */
  function Reading(env: Env, e: Expr): Den
    decreases Size(e), 1
  {
    match e
    case Number(sp) => Den(Literal(sp), if Overflows(sp) then 1 else 0)
    case Char(v, n) => Den(v, n)
    case Name(_) => Den(Signed(0), 0)
    case Defined(id, _) => Den(Bool(IsDefined(env, id)), 0)
    case Paren(x) => Reading(env, x)
    case Unary(op, x) =>
      var d := Reading(env, x);
      var u := ReadUn(op, d.v);
      Den(u.v, d.errs + u.errs)
    case Binary(op, l, r) =>
      var (dl, dr) := (Reading(env, l), Reading(env, r));
      var s := CodeOp(op, dl.v, dr.v);
      Den(s.val, dl.errs + dr.errs + s.errs)
    case LAnd(l, r) =>
      var (dl, dr) := (Reading(env, l), Reading(env, r));
      if dl.v.v == 0 then Den(Bool(false), dl.errs) else Den(Bool(dr.v.v != 0), dl.errs + dr.errs)
    case LOr(l, r) =>
      var (dl, dr) := (Reading(env, l), Reading(env, r));
      if dl.v.v != 0 then Den(Bool(true), dl.errs) else Den(Bool(dr.v.v != 0), dl.errs + dr.errs)
    case Cond(c, a, b) =>
      var dc := Reading(env, c);
      if EndsSkipped(env, c) then
        if dc.v.v != 0 || Resume(b) == None then dc
        else var d := Reading(env, Resume(b).value); Den(d.v, dc.errs + d.errs)
      else
        var (da, db, first) := (Reading(env, a), Reading(env, b), dc.v.v != 0);
        Den(Select(first, da.v, db.v), dc.errs + (if first then da.errs else db.errs))
  }

  /** A division or remainder whose divisor is zero: the operand loop is left after it. */
  predicate ZeroDiv(env: Env, e: Expr) {
    e.Binary? && e.op in {Div, Rem} && Reading(env, e.r).v.v == 0
  }

  /** The evaluator reaches, in what it evaluates or in an arm that is not selected, a zero divisor
      with a multiplicative operator behind it: it stops there and gets out of step. */
  predicate Jams(env: Env, e: Expr)
    decreases Size(e)
  {
    match e
    case Paren(x) => Jams(env, x)
    case Unary(_, x) => Jams(env, x)
    case Binary(op, l, r) => Jams(env, l) || (Level(op) == 2 && ZeroDiv(env, l)) || Jams(env, r)
    case LAnd(l, r) => Jams(env, l) || (Reading(env, l).v.v != 0 && Jams(env, r))
    case LOr(l, r) => Jams(env, l) || (Reading(env, l).v.v == 0 && Jams(env, r))
    case Cond(c, a, b) =>
      Jams(env, c) ||
      if EndsSkipped(env, c) then Reading(env, c).v.v == 0 && Resume(b).Some? && Jams(env, Resume(b).value)
      else Jams(env, a) || Jams(env, b)
    case _ => false
  }

  // ---- the follow token ----

  /** May p follow a phrase of level k without extending it? */
  predicate Follows(k: nat, p: Punct) {
    match p
    case RParen | Colon => true
    case Comma | Question => k <= 11
    case OrOr => k <= 10
    case AndAnd => k <= 9
    case Op(op) => k < Level(op)
    case _ => false
  }

  predicate FollowOK(k: nat, f: seq<Tok>) { f == [] || (f[0].P? && Follows(k, f[0].p)) }

  // ---- skipping ----

  /** A token that skipping steps over without changing its counters. */
  predicate Plain(t: Tok, depth: nat, tern: nat) {
    t.P? ==>
      match t.p
      case LParen | RParen => false
      case Comma | Question | Colon => depth > 0
      case OrOr | AndAnd => depth > 0 || tern > 0
      case _ => true
  }

  lemma SkipPlain(t: Tok, s: seq<Tok>, depth: nat, tern: nat)
    requires Plain(t, depth, tern)
    ensures SkipExpr([t] + s, depth, tern) == SkipExpr(s, depth, tern)
  {
    assert ([t] + s)[1..] == s;
  }

  lemma SkipBracket(s: seq<Tok>, depth: nat, tern: nat)
    ensures SkipExpr([P(LParen)] + s, depth, tern) == SkipExpr(s, depth + 1, tern)
    ensures SkipExpr([P(RParen)] + s, depth + 1, tern) == SkipExpr(s, depth, tern)
    ensures SkipExpr([P(Question)] + s, 0, tern) == SkipExpr(s, 0, tern + 1)
    ensures SkipExpr([P(Colon)] + s, 0, tern + 1) == SkipExpr(s, 0, tern)
  {
    assert ([P(LParen)] + s)[1..] == ([P(RParen)] + s)[1..] == ([P(Question)] + s)[1..] == ([P(Colon)] + s)[1..] == s;
  }

  /** Skipping passes over a whole phrase, unless it stands at the top and holds `&&`, `||` or
      `?:` there. */
  lemma {:induction false} SkipPhrase(e: Expr, f: seq<Tok>, depth: nat, tern: nat)
    requires WellFormed(e) && (depth > 0 || tern > 0 || Lvl(e) <= 9)
    ensures SkipExpr(Toks(e) + f, depth, tern) == SkipExpr(f, depth, tern)
    decreases e, 1
  {
    hide SkipExpr;
    match e {
      case Number(_) => SkipPlain(Toks(e)[0], f, depth, tern);
      case Char(_, _) => SkipPlain(Toks(e)[0], f, depth, tern);
      case Name(_) => SkipPlain(Toks(e)[0], f, depth, tern);
      case Defined(id, parens) => SkipDefined(id, parens, f, depth, tern);
      case Paren(x) =>
        assert Toks(e) + f == [P(LParen)] + (Toks(x) + ([P(RParen)] + f));
        SkipBracket(Toks(x) + ([P(RParen)] + f), depth, tern);
        SkipPhrase(x, [P(RParen)] + f, depth + 1, tern);
        SkipBracket(f, depth, tern);
      case Unary(op, x) =>
        assert Toks(e) + f == [UnTok(op)] + (Toks(x) + f);
        SkipPlain(UnTok(op), Toks(x) + f, depth, tern);
        SkipPhrase(x, f, depth, tern);
      case Binary(op, l, r) => SkipTwo(e, l, P(Op(op)), r, f, depth, tern);
      case LAnd(l, r) => SkipTwo(e, l, P(AndAnd), r, f, depth, tern);
      case LOr(l, r) => SkipTwo(e, l, P(OrOr), r, f, depth, tern);
      case Cond(c, a, b) =>
        SkipConditional(c, a, b, f, depth, tern);
    }
  }

  lemma {:induction false} SkipTwo(e: Expr, l: Expr, t: Tok, r: Expr, f: seq<Tok>, depth: nat, tern: nat)
    requires WellFormed(e) && (depth > 0 || tern > 0 || Lvl(e) <= 9)
    requires (t.P? && t.p.Op? && e == Binary(t.p.op, l, r)) || (t == P(AndAnd) && e == LAnd(l, r))
             || (t == P(OrOr) && e == LOr(l, r))
    ensures SkipExpr(Toks(e) + f, depth, tern) == SkipExpr(f, depth, tern)
    decreases e, 0
  {
    hide SkipExpr, Toks;
    var g := Toks(r) + f;
    BinaryToks(e, f);
    SkipPhrase(l, [t] + g, depth, tern);
    SkipPlain(t, g, depth, tern);
    SkipPhrase(r, f, depth, tern);
  }

  lemma {:induction false} SkipConditional(c: Expr, a: Expr, b: Expr, f: seq<Tok>, depth: nat, tern: nat)
    requires WellFormed(Cond(c, a, b)) && (depth > 0 || tern > 0)
    ensures SkipExpr(Toks(Cond(c, a, b)) + f, depth, tern) == SkipExpr(f, depth, tern)
    decreases Cond(c, a, b), 0
  {
    var g := [P(Colon)] + (Toks(b) + f);
    assert Toks(Cond(c, a, b)) + f == Toks(c) + ([P(Question)] + (Toks(a) + g));
    SkipPhrase(c, [P(Question)] + (Toks(a) + g), depth, tern);
    if depth == 0 {
      SkipBracket(Toks(a) + g, 0, tern);
      SkipPhrase(a, g, 0, tern + 1);
      SkipBracket(Toks(b) + f, 0, tern);
    } else {
      SkipPlain(P(Question), Toks(a) + g, depth, tern);
      SkipPhrase(a, g, depth, tern);
      SkipPlain(P(Colon), Toks(b) + f, depth, tern);
    }
    SkipPhrase(b, f, depth, tern);
  }

  lemma SkipDefined(id: string, parens: bool, f: seq<Tok>, depth: nat, tern: nat)
    ensures SkipExpr(Toks(Defined(id, parens)) + f, depth, tern) == SkipExpr(f, depth, tern)
  {
    if parens {
      var (s2, s1) := ([P(RParen)] + f, [Ident(id)] + ([P(RParen)] + f));
      assert Toks(Defined(id, parens)) + f == [Ident("defined")] + ([P(LParen)] + s1);
      SkipPlain(Ident("defined"), [P(LParen)] + s1, depth, tern);
      SkipBracket(s1, depth, tern);
      SkipPlain(Ident(id), s2, depth + 1, tern);
      SkipBracket(f, depth, tern);
    } else {
      assert Toks(Defined(id, parens)) + f == [Ident("defined")] + ([Ident(id)] + f);
      SkipPlain(Ident("defined"), [Ident(id)] + f, depth, tern);
      SkipPlain(Ident(id), f, depth, tern);
    }
  }

  /** The token between the operands of a binary phrase. */
  function Between(e: Expr): Tok
    requires e.Binary? || e.LAnd? || e.LOr?
  {
    P(if e.Binary? then Op(e.op) else if e.LAnd? then AndAnd else OrOr)
  }

  lemma BinaryToks(e: Expr, f: seq<Tok>)
    requires e.Binary? || e.LAnd? || e.LOr?
    ensures Toks(e) + f == Toks(e.l) + ([Between(e)] + (Toks(e.r) + f))
    ensures ([Between(e)] + (Toks(e.r) + f))[1..] == Toks(e.r) + f
  {
    var (a, b) := (Toks(e.l), Toks(e.r));
    assert Toks(e) == a + [Between(e)] + b;
    hide Toks;
    Join3(a, Between(e), b, f);
  }

  lemma Join3(a: seq<Tok>, t: Tok, b: seq<Tok>, f: seq<Tok>)
    ensures (a + [t] + b) + f == a + ([t] + (b + f)) && ([t] + (b + f))[1..] == b + f
  {}

  /** Skipping a chain of `&&` operands, whatever follows. */
  lemma {:induction false} SkipChain(e: Expr, f: seq<Tok>)
    requires WellFormed(e) && Lvl(e) <= 10
    ensures var h := SkipExpr(f, 0, 0);
            SkipLogAnd(Toks(e) + f) == if Next(h, AndAnd) then SkipLogAnd(h[1..]) else h
  {
    if e.LAnd? {
      var g := [P(AndAnd)] + (Toks(e.r) + f);
      assert Toks(e) + f == Toks(e.l) + g;
      SkipChain(e.l, g);
      assert g[1..] == Toks(e.r) + f;
      SkipChain(e.r, f);
    } else {
      SkipPhrase(e, f, 0, 0);
    }
  }

  lemma SkipStops(f: seq<Tok>)
    requires FollowOK(9, f) && !Next(f, Question)
    ensures SkipExpr(f, 0, 0) == f
  {}

  // ---- skipping on into the arms ----

  /** Skips operands joined by `||`. */
  function SkipLogOr(s: seq<Tok>): (r: seq<Tok>)
    ensures |r| <= |s|
    decreases |s|
  {
    var h := SkipLogAnd(s);
    if Next(h, OrOr) then SkipLogOr(h[1..]) else h
  }

  lemma SkipLogAndStops(f: seq<Tok>)
    requires FollowOK(9, f) && !Next(f, Question) && !Next(f, AndAnd)
    ensures SkipLogAnd(f) == f
  {
    hide SkipExpr;
    SkipStops(f);
  }

  /** From the `?` of a conditional, skipping passes the first arm. */
  lemma SkipFirstArm(a: Expr, g: seq<Tok>)
    requires WellFormed(a)
    ensures var s := [P(Question)] + (Toks(a) + ([P(Colon)] + g));
            SkipExpr(s, 0, 0) == SkipExpr(g, 0, 0) && SkipLogAnd(s) == SkipLogAnd(g)
  {
    hide SkipExpr;
    SkipBracket(Toks(a) + ([P(Colon)] + g), 0, 0);
    SkipPhrase(a, [P(Colon)] + g, 0, 1);
    SkipBracket(g, 0, 0);
    var s := [P(Question)] + (Toks(a) + ([P(Colon)] + g));
    SkipLogAndIs(s);
    SkipLogAndIs(g);
  }

  lemma SkipLogAndIs(s: seq<Tok>)
    ensures var h := SkipExpr(s, 0, 0); SkipLogAnd(s) == if Next(h, AndAnd) then SkipLogAnd(h[1..]) else h
  {
    hide SkipExpr;
  }

  lemma SkipLogOrIs(s: seq<Tok>)
    ensures var h := SkipLogAnd(s); SkipLogOr(s) == if Next(h, OrOr) then SkipLogOr(h[1..]) else h
  {
    hide SkipLogAnd;
  }

  lemma CondToks(e: Expr, f: seq<Tok>)
    requires e.Cond?
    ensures Toks(e) + f == Toks(e.c) + ([P(Question)] + (Toks(e.a) + ([P(Colon)] + (Toks(e.b) + f))))
  {}

  /** Skipping over a phrase as an operand of `&&` ends at its first `||`, and passes it when it
      has none. */
  lemma {:induction false} SkipToResume(e: Expr, f: seq<Tok>)
    requires WellFormed(e)
    ensures SkipLogAnd(Toks(e) + f) == if Resume(e) == None then SkipLogAnd(f) else Toks(Resume(e).value)[1..] + f
    ensures Resume(e).Some? ==> Toks(Resume(e).value)[0] == PpNumber("0") && Next(Toks(Resume(e).value)[1..] + f, OrOr)
    decreases e, 1
  {
    hide SkipExpr, SkipLogAnd, Toks;
    match e {
      case LOr(_, _) => SkipToResumeOr(e, f);
      case Cond(_, _, _) => SkipToResumeCond(e, f);
      case _ =>
        SkipChain(e, f);
        SkipLogAndIs(f);
    }
  }

  lemma FalseToks(r: Expr, f: seq<Tok>)
    ensures Toks(LOr(FALSE, r))[0] == PpNumber("0") && Toks(LOr(FALSE, r))[1..] + f == [P(OrOr)] + (Toks(r) + f)
  {
    assert Toks(LOr(FALSE, r)) == [PpNumber("0")] + ([P(OrOr)] + Toks(r));
  }

  lemma OrToks(l: Expr, r: Expr, f: seq<Tok>)
    ensures Toks(LOr(l, r)) == Toks(l) + ([P(OrOr)] + Toks(r))
    ensures ([P(OrOr)] + Toks(r)) + f == [P(OrOr)] + (Toks(r) + f)
  {}

  lemma ConditionalToks(c: Expr, a: Expr, b: Expr, f: seq<Tok>)
    ensures Toks(Cond(c, a, b)) == Toks(c) + ([P(Question)] + (Toks(a) + ([P(Colon)] + Toks(b))))
    ensures ([P(Question)] + (Toks(a) + ([P(Colon)] + Toks(b)))) + f == [P(Question)] + (Toks(a) + ([P(Colon)] + (Toks(b) + f)))
  {}

  lemma {:induction false} SkipToResumeOr(e: Expr, f: seq<Tok>)
    requires e.LOr? && WellFormed(e)
    ensures SkipLogAnd(Toks(e) + f) == Toks(Resume(e).value)[1..] + f
    ensures Toks(Resume(e).value)[0] == PpNumber("0") && Next(Toks(Resume(e).value)[1..] + f, OrOr)
    decreases e, 0
  {
    hide SkipExpr, SkipLogAnd, Toks;
    var g := [P(OrOr)] + (Toks(e.r) + f);
    BinaryToks(e, f);
    SkipToResume(e.l, g);
    if Resume(e.l) == None {
      SkipLogAndStops(g);
      FalseToks(e.r, f);
    } else {
      var l := Resume(e.l).value;
      OrToks(l, e.r, f);
      ResumeTail(Toks(l), [P(OrOr)] + Toks(e.r), f);
    }
  }

  lemma {:induction false} SkipToResumeCond(e: Expr, f: seq<Tok>)
    requires e.Cond? && WellFormed(e)
    ensures SkipLogAnd(Toks(e) + f) == if Resume(e) == None then SkipLogAnd(f) else Toks(Resume(e).value)[1..] + f
    ensures Resume(e).Some? ==> Toks(Resume(e).value)[0] == PpNumber("0") && Next(Toks(Resume(e).value)[1..] + f, OrOr)
    decreases e, 0
  {
    hide SkipExpr, SkipLogAnd, Toks;
    var g := [P(Question)] + (Toks(e.a) + ([P(Colon)] + (Toks(e.b) + f)));
    CondToks(e, f);
    SkipToResume(e.c, g);
    if Resume(e.c) == None {
      SkipFirstArm(e.a, Toks(e.b) + f);
      SkipToResume(e.b, f);
    } else {
      var c := Resume(e.c).value;
      ConditionalToks(c, e.a, e.b, f);
      ResumeTail(Toks(c), [P(Question)] + (Toks(e.a) + ([P(Colon)] + Toks(e.b))), f);
    }
  }

  lemma ResumeTail(s: seq<Tok>, t: seq<Tok>, f: seq<Tok>)
    requires s != [] && Next(s[1..] + (t + f), OrOr)
    ensures (s + t)[1..] + f == s[1..] + (t + f) && (s + t)[0] == s[0]
  {
    assert (s + t)[1..] == s[1..] + t;
  }

  /** Skipping over a whole phrase as an operand of `||` passes it. */
  lemma {:induction false} SkipAll(e: Expr, f: seq<Tok>)
    requires WellFormed(e)
    ensures SkipLogOr(Toks(e) + f) == SkipLogOr(f)
  {
    hide SkipExpr, SkipLogAnd, SkipLogOr;
    SkipLogOrIs(Toks(e) + f);
    SkipLogOrIs(f);
    match e {
      case LOr(l, r) =>
        var g := [P(OrOr)] + (Toks(r) + f);
        BinaryToks(e, f);
        SkipAll(l, g);
        SkipLogAndStops(g);
        SkipLogOrIs(g);
        assert g[1..] == Toks(r) + f;
        SkipAll(r, f);
      case Cond(c, a, b) =>
        var g := [P(Question)] + (Toks(a) + ([P(Colon)] + (Toks(b) + f)));
        CondToks(e, f);
        SkipAll(c, g);
        SkipFirstArm(a, Toks(b) + f);
        SkipLogOrIs(g);
        SkipLogOrIs(Toks(b) + f);
        SkipAll(b, f);
      case _ =>
        SkipChain(e, f);
        SkipLogAndIs(f);
    }
  }
}
