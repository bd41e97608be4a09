/** The evaluator as the preprocessor runs it: a cursor over the directive line, moved by one
    method per level of the grammar, each proved against the functions of IfEval. */
module IfMachine {
  import opened Bits
  import opened IntMax
  import opened IntLiteral
  import opened IfEval
  import opened IfTrees
  import opened IfJams
  import opened IfExact

  /** A token list without its white space. */
  function Strip(s: seq<Tok>): seq<Tok> {
    if s == [] then [] else if s[0].White? then Strip(s[1..]) else [s[0]] + Strip(s[1..])
  }

  /** Stripping works token by token: white space goes, everything else stays where it is. */
  lemma {:induction false} StripParts(a: seq<Tok>, b: seq<Tok>, t: Tok)
    ensures Strip(a + b) == Strip(a) + Strip(b)
    ensures Strip([White]) == [] && (t != White ==> Strip([t]) == [t])
    decreases |a|
  {
    assert [White][1..] == [] == [t][1..] && [t] + [] == [t];
    if a == [] {
      assert a + b == b;
    } else {
      assert (a + b)[1..] == a[1..] + b;
      StripParts(a[1..], b, t);
    }
  }

  class EvalCtx {
    const env: Env
    const toks: seq<Tok>
    var cur: nat
    var hadError: bool
    var diags: nat
    var suppress: bool

    ghost predicate Valid()
      reads this
    {
      cur <= |toks|
    }

    ghost function Rest(): seq<Tok>
      reads this
      requires Valid()
    {
      Strip(toks[cur..])
    }

    ghost function State(): Ctx
      reads this
      requires Valid()
    {
      Ctx(Rest(), hadError, diags, suppress)
    }

    constructor (env: Env, toks: seq<Tok>)
      ensures Valid() && this.env == env && this.toks == toks
      ensures State() == Ctx(Strip(toks), false, 0, false)
    {
      this.env, this.toks := env, toks;
      cur, hadError, diags, suppress := 0, false, 0, false;
    }

    /** Steps over white space. */
    method SkipWs()
      requires Valid()
      modifies this`cur
      ensures Valid() && State() == old(State())
      ensures if cur == |toks| then Rest() == [] else !toks[cur].White? && Rest() == [toks[cur]] + Strip(toks[cur + 1..])
    {
      while cur < |toks| && toks[cur].White?
        invariant Valid() && Rest() == old(Rest())
      {
        cur := cur + 1;
      }
    }

    /** Is p the next token? */
    method Peeks(p: Punct) returns (b: bool)
      requires Valid()
      modifies this`cur
      ensures Valid() && State() == old(State())
      ensures b == Next(Rest(), p)
    {
      SkipWs();
      b := cur < |toks| && toks[cur] == P(p);
    }

    /** The operator of level k that comes next, if one does. */
    method PeeksOp(k: nat) returns (op: BinOp, b: bool)
      requires Valid()
      modifies this`cur
      ensures Valid() && State() == old(State())
      ensures b == NextIsOp(Rest(), k) && (b ==> op == Rest()[0].p.op)
    {
      SkipWs();
      b := cur < |toks| && toks[cur].P? && toks[cur].p.Op? && Level(toks[cur].p.op) == k;
      op := if b then toks[cur].p.op else Mul;
    }

    method AtEnd() returns (b: bool)
      requires Valid()
      modifies this`cur
      ensures Valid() && State() == old(State())
      ensures b == (Rest() == [])
    {
      SkipWs();
      b := cur == |toks|;
    }

    /** Takes the next token. */
    method Get() returns (t: Tok)
      requires Valid() && Rest() != []
      modifies this`cur
      ensures Valid() && t == old(Rest())[0] && State() == Drop1(old(State()))
    {
      SkipWs();
      t := toks[cur];
      cur := cur + 1;
    }

    method AcceptTok(p: Punct) returns (b: bool)
      requires Valid()
      modifies this`cur
      ensures Valid() && b == Next(old(Rest()), p) && State() == Accept(old(State()), p)
    {
      b := Peeks(p);
      if b { var _ := Get(); }
    }

    method Error(n: nat)
      requires Valid()
      modifies this`hadError, this`diags
      ensures Valid() && State() == Errors(old(State()), n)
    {
      if n > 0 {
        hadError := true;
        if !suppress { diags := diags + n; }
      }
    }

    method ExpectTok(p: Punct)
      requires Valid()
      modifies this
      ensures Valid() && State() == Expect(old(State()), p)
    {
      var b := AcceptTok(p);
      if !b { Error(1); }
    }

    /** Skips to the parenthesis that closes `depth` open ones. */
    method SkipToClose(depth: nat)
      requires Valid()
      modifies this
      ensures Valid() && State() == old(State()).(rest := IfEval.SkipCall(old(Rest()), depth))
    {
      var d := depth;
      var end := AtEnd();
      while d > 0 && !end
        invariant Valid() && end == (Rest() == [])
        invariant IfEval.SkipCall(Rest(), d) == IfEval.SkipCall(old(Rest()), depth)
        invariant State() == old(State()).(rest := Rest())
        decreases |Rest()|
      {
        var t := Get();
        if t == P(LParen) { d := d + 1; } else if t == P(RParen) { d := d - 1; }
        end := AtEnd();
      }
    }

    method EvalDefined() returns (v: Value)
      requires Valid()
      modifies this
      ensures Valid() && (v, State()) == DefinedOp(env, old(State()))
    {
      var paren := AcceptTok(LParen);
      var end := AtEnd();
      if end {
        Error(1);
        return Signed(0);
      }
      var t := Get();
      if !t.Ident? {
        Error(1);
        if paren { var _ := AcceptTok(RParen); }
        return Signed(0);
      }
      if paren { ExpectTok(RParen); }
      v := Bool(IsDefined(env, t.name));
    }

    method EvalHas(name: string) returns (v: Value)
      requires Valid()
      modifies this
      ensures Valid()
      ensures var (arg, s) := HasArgument(old(Rest()));
              v == Bool(name !in WITHOUT_TABLE && (name, arg) in env.tables) && State() == old(State()).(rest := s)
    {
      var arg := "";
      var paren := AcceptTok(LParen);
      if paren {
        var end := AtEnd();
        if !end {
          var t := Get();
          if t.Ident? { arg := StripUnderscores(t.name); }
          SkipToClose(1);
        }
      }
      v := Bool(name !in WITHOUT_TABLE && (name, arg) in env.tables);
    }

    method EvalPrimary() returns (v: Value)
      requires Valid()
      modifies this
      ensures Valid() && (v, State()) == Ev(env, 0, old(State())) == Primary(env, old(State()))
      decreases |Rest()|, 2
    {
      var end := AtEnd();
      if end {
        hadError := true;
        return Signed(0);
      }
      var t := Get();
      if t == P(LParen) {
        v := EvalExpr();
        ExpectTok(RParen);
      } else if t.Ident? && t.name == "defined" {
        v := EvalDefined();
      } else if t.Ident? && t.name in HAS_OPERATORS {
        v := EvalHas(t.name);
      } else if t.PpNumber? {
        var overflow;
        v, overflow := ParseIntLiteralEx(t.spell);
        if overflow { Error(1); }
      } else if t.CharConst? {
        v := t.val;
        Error(t.errs);
      } else if t.Ident? {
        var call := AcceptTok(LParen);
        if call { SkipToClose(1); }
        v := Signed(0);
      } else {
        Error(1);
        v := Signed(0);
      }
    }

    method EvalUnary() returns (v: Value)
      requires Valid()
      modifies this
      ensures Valid() && (v, State()) == Ev(env, 1, old(State()))
      decreases |Rest()|, 5
    {
      hide CodeOp, Lp, Primary;
      var plus := Peeks(Op(Add));
      if plus {
        var _ := Get();
        v := EvalUnary();
        return;
      }
      var minus := Peeks(Op(Sub));
      if minus {
        var _ := Get();
        var x := EvalUnary();
        var s := CodeNeg(x);
        Error(s.errs);
        return s.val;
      }
      var compl := Peeks(Tilde);
      if compl {
        var _ := Get();
        var x := EvalUnary();
        return CodeNot(x);
      }
      var bang := Peeks(Bang);
      if bang {
        var _ := Get();
        var x := EvalUnary();
        return Bool(x.v == 0);
      }
      v := EvalPrimary();
    }

    method EvalMul() returns (v: Value)
      requires Valid()
      modifies this
      ensures Valid() && (v, State()) == Ev(env, 2, old(State()))
      decreases |Rest()|, 8
    {
      hide CodeOp, Primary, Conditional;
      v := EvalUnary();
      while true
        invariant Valid() && |Rest()| <= |old(Rest())|
        invariant Lp(env, 2, v, State()) == Ev(env, 2, old(State()))
        decreases |Rest()|
      {
        var op, more := PeeksOp(2);
        if !more { return; }
        var _ := Get();
        var r := EvalUnary();
        var s := CodeOp(op, v, r);
        v := s.val;
        Error(s.errs);
        if s.stop { return; }
      }
    }

    method EvalAdd() returns (v: Value)
      requires Valid()
      modifies this
      ensures Valid() && (v, State()) == Ev(env, 3, old(State()))
      decreases |Rest()|, 11
    {
      hide CodeOp, Primary, Conditional;
      v := EvalMul();
      while true
        invariant Valid() && |Rest()| <= |old(Rest())|
        invariant Lp(env, 3, v, State()) == Ev(env, 3, old(State()))
        decreases |Rest()|
      {
        var op, more := PeeksOp(3);
        if !more { return; }
        var _ := Get();
        var r := EvalMul();
        var s := CodeOp(op, v, r);
        OnlyDivisionStops(op, v, r);
        v := s.val;
        Error(s.errs);
      }
    }

    method EvalShift() returns (v: Value)
      requires Valid()
      modifies this
      ensures Valid() && (v, State()) == Ev(env, 4, old(State()))
      decreases |Rest()|, 14
    {
      hide CodeOp, Primary, Conditional;
      v := EvalAdd();
      while true
        invariant Valid() && |Rest()| <= |old(Rest())|
        invariant Lp(env, 4, v, State()) == Ev(env, 4, old(State()))
        decreases |Rest()|
      {
        var op, more := PeeksOp(4);
        if !more { return; }
        var _ := Get();
        var r := EvalAdd();
        var s := CodeOp(op, v, r);
        OnlyDivisionStops(op, v, r);
        v := s.val;
        Error(s.errs);
      }
    }

    method EvalRelat() returns (v: Value)
      requires Valid()
      modifies this
      ensures Valid() && (v, State()) == Ev(env, 5, old(State()))
      decreases |Rest()|, 17
    {
      hide CodeOp, Primary, Conditional;
      v := EvalShift();
      while true
        invariant Valid() && |Rest()| <= |old(Rest())|
        invariant Lp(env, 5, v, State()) == Ev(env, 5, old(State()))
        decreases |Rest()|
      {
        var op, more := PeeksOp(5);
        if !more { return; }
        var _ := Get();
        var r := EvalShift();
        var s := CodeOp(op, v, r);
        OnlyDivisionStops(op, v, r);
        v := s.val;
        Error(s.errs);
      }
    }

    method EvalEqual() returns (v: Value)
      requires Valid()
      modifies this
      ensures Valid() && (v, State()) == Ev(env, 6, old(State()))
      decreases |Rest()|, 20
    {
      hide CodeOp, Primary, Conditional;
      v := EvalRelat();
      while true
        invariant Valid() && |Rest()| <= |old(Rest())|
        invariant Lp(env, 6, v, State()) == Ev(env, 6, old(State()))
        decreases |Rest()|
      {
        var op, more := PeeksOp(6);
        if !more { return; }
        var _ := Get();
        var r := EvalRelat();
        var s := CodeOp(op, v, r);
        OnlyDivisionStops(op, v, r);
        v := s.val;
        Error(s.errs);
      }
    }

    method EvalBitAnd() returns (v: Value)
      requires Valid()
      modifies this
      ensures Valid() && (v, State()) == Ev(env, 7, old(State()))
      decreases |Rest()|, 23
    {
      hide CodeOp, Primary, Conditional;
      v := EvalEqual();
      while true
        invariant Valid() && |Rest()| <= |old(Rest())|
        invariant Lp(env, 7, v, State()) == Ev(env, 7, old(State()))
        decreases |Rest()|
      {
        var op, more := PeeksOp(7);
        if !more { return; }
        var _ := Get();
        var r := EvalEqual();
        var s := CodeOp(op, v, r);
        OnlyDivisionStops(op, v, r);
        v := s.val;
        Error(s.errs);
      }
    }

    method EvalBitXor() returns (v: Value)
      requires Valid()
      modifies this
      ensures Valid() && (v, State()) == Ev(env, 8, old(State()))
      decreases |Rest()|, 26
    {
      hide CodeOp, Primary, Conditional;
      v := EvalBitAnd();
      while true
        invariant Valid() && |Rest()| <= |old(Rest())|
        invariant Lp(env, 8, v, State()) == Ev(env, 8, old(State()))
        decreases |Rest()|
      {
        var op, more := PeeksOp(8);
        if !more { return; }
        var _ := Get();
        var r := EvalBitAnd();
        var s := CodeOp(op, v, r);
        OnlyDivisionStops(op, v, r);
        v := s.val;
        Error(s.errs);
      }
    }

    method EvalBitOr() returns (v: Value)
      requires Valid()
      modifies this
      ensures Valid() && (v, State()) == Ev(env, 9, old(State()))
      decreases |Rest()|, 29
    {
      hide CodeOp, Primary, Conditional;
      v := EvalBitXor();
      while true
        invariant Valid() && |Rest()| <= |old(Rest())|
        invariant Lp(env, 9, v, State()) == Ev(env, 9, old(State()))
        decreases |Rest()|
      {
        var op, more := PeeksOp(9);
        if !more { return; }
        var _ := Get();
        var r := EvalBitXor();
        var s := CodeOp(op, v, r);
        OnlyDivisionStops(op, v, r);
        v := s.val;
        Error(s.errs);
      }
    }

    /** Skips an operand without evaluating it. */
    method SkipOperand()
      requires Valid()
      modifies this
      ensures Valid() && State() == old(State()).(rest := SkipExpr(old(Rest()), 0, 0))
    {
      var depth, tern := 0, 0;
      while true
        invariant Valid()
        invariant SkipExpr(Rest(), depth, tern) == SkipExpr(old(Rest()), 0, 0)
        invariant State() == old(State()).(rest := Rest())
        decreases |Rest()|
      {
        SkipWs();
        if cur == |toks| { return; }
        var t := toks[cur];
        if t == P(LParen) {
          depth := depth + 1;
        } else if t == P(RParen) {
          if depth == 0 { return; }
          depth := depth - 1;
        } else if t == P(Comma) && depth == 0 {
          return;
        } else if t == P(Question) && depth == 0 {
          tern := tern + 1;
        } else if t == P(Colon) && depth == 0 {
          if tern == 0 { return; }
          tern := tern - 1;
        } else if (t == P(OrOr) || t == P(AndAnd)) && depth == 0 && tern == 0 {
          return;
        }
        cur := cur + 1;
      }
    }

    /** Skips operands joined by `&&`. */
    method SkipLogAndOperand()
      requires Valid()
      modifies this
      ensures Valid() && State() == old(State()).(rest := SkipLogAnd(old(Rest())))
    {
      while true
        invariant Valid() && SkipLogAnd(Rest()) == SkipLogAnd(old(Rest()))
        invariant State() == old(State()).(rest := Rest())
        decreases |Rest()|
      {
        SkipOperand();
        var more := AcceptTok(AndAnd);
        if !more { return; }
      }
    }

    method EvalLogAnd() returns (v: Value)
      requires Valid()
      modifies this
      ensures Valid() && (v, State()) == Ev(env, 10, old(State()))
      decreases |Rest()|, 32
    {
      hide CodeOp, Primary, Conditional, SkipExpr;
      v := EvalBitOr();
      while true
        invariant Valid() && |Rest()| <= |old(Rest())|
        invariant Lp(env, 10, v, State()) == Ev(env, 10, old(State()))
        decreases |Rest()|
      {
        var more := AcceptTok(AndAnd);
        if !more { return; }
        if v.v != 0 {
          var r := EvalBitOr();
          v := Bool(r.v != 0);
        } else {
          SkipOperand();
          v := Bool(false);
        }
      }
    }

    method EvalLogOr() returns (v: Value)
      requires Valid()
      modifies this
      ensures Valid() && (v, State()) == Ev(env, 11, old(State()))
      decreases |Rest()|, 35
    {
      hide CodeOp, Primary, Conditional, SkipExpr, SkipLogAnd;
      v := EvalLogAnd();
      while true
        invariant Valid() && |Rest()| <= |old(Rest())|
        invariant Lp(env, 11, v, State()) == Ev(env, 11, old(State()))
        decreases |Rest()|
      {
        var more := AcceptTok(OrOr);
        if !more { return; }
        if v.v == 0 {
          var r := EvalLogAnd();
          v := Bool(r.v != 0);
        } else {
          SkipLogAndOperand();
          v := Bool(true);
        }
      }
    }

    method CommaTail(v0: Value) returns (v: Value)
      requires Valid()
      modifies this
      ensures Valid() && (v, State()) == Lp(env, 12, v0, old(State()))
      decreases |Rest()|, 36
    {
      hide CodeOp, Primary, Conditional, Ev;
      v := v0;
      while true
        invariant Valid() && |Rest()| <= |old(Rest())|
        invariant Lp(env, 12, v, State()) == Lp(env, 12, v0, old(State()))
        decreases |Rest()|
      {
        var more := AcceptTok(Comma);
        if !more { return; }
        var end := AtEnd();
        if end { return; }
        v := EvalLogOr();
      }
    }

    method EvalExpr() returns (v: Value)
      requires Valid()
      modifies this
      ensures Valid() && (v, State()) == Ev(env, 12, old(State()))
      decreases |Rest()|, 38
    {
      hide CodeOp, Primary, Lp, SkipExpr, SkipLogAnd;
      assert Ev(env, 12, old(State())) == Conditional(env, old(State()));
      var leading := AcceptTok(Comma);
      if leading {
        v := EvalLogOr();
        v := CommaTail(v);
        return;
      }
      var cond := EvalLogOr();
      var ask := AcceptTok(Question);
      if !ask {
        v := CommaTail(cond);
        return;
      }
      var prevSuppress := suppress;
      var first := cond.v != 0;
      var a, b;
      if first {
        a := EvalExpr();
        var _ := AcceptTok(Colon);
        suppress := true;
        var savedError := hadError;
        b := EvalExpr();
        hadError := savedError;
        suppress := prevSuppress;
      } else {
        suppress := true;
        var savedError := hadError;
        a := EvalExpr();
        hadError := savedError;
        suppress := prevSuppress;
        var _ := AcceptTok(Colon);
        b := EvalExpr();
      }
      v := Select(first, a, b);
    }
  }

  lemma OnlyDivisionStops(op: BinOp, v: Value, r: Value)
    ensures CodeOp(op, v, r).stop ==> op in {Div, Rem}
    ensures Level(op) >= 3 ==> !CodeOp(op, v, r).stop
  {}

  /** A whole directive line, white space and all. */
  method CppEvalIfExpr(env: Env, toks: seq<Tok>) returns (v: Value, error: bool)
    ensures (v, error) == IfExpr(env, Strip(toks))
    ensures forall e :: WellFormed(e) && Strip(toks) == Toks(e)
              ==> (error <==> Jams(env, e) || Reading(env, e).errs > 0) && (!Jams(env, e) ==> v == Reading(env, e).v)
    ensures forall e :: WellFormed(e) && ReadWhole(env, e) && TrapFree(env, e) && Strip(toks) == Toks(e)
              ==> (!error <==> Meaning(env, e).errs == 0 && !DeadJam(env, e)) && (!error ==> v == Meaning(env, e).v)
  {
    var ec := new EvalCtx(env, toks);
    var empty := ec.AtEnd();
    if empty {
      return Signed(0), true;
    }
    v := ec.EvalExpr();
    var end := ec.AtEnd();
    error := ec.hadError || !end;
    assert (v, error) == IfExpr(env, Strip(toks));
    LineOutcomes(env, Strip(toks));
  }

  /** What is known of the outcome of a line, whichever tree derives it. */
  lemma LineOutcomes(env: Env, s: seq<Tok>)
    ensures var (v, error) := IfExpr(env, s);
            forall e :: WellFormed(e) && s == Toks(e)
              ==> (error <==> Jams(env, e) || Reading(env, e).errs > 0) && (!Jams(env, e) ==> v == Reading(env, e).v)
    ensures var (v, error) := IfExpr(env, s);
            forall e :: WellFormed(e) && ReadWhole(env, e) && TrapFree(env, e) && s == Toks(e)
              ==> (!error <==> Meaning(env, e).errs == 0 && !DeadJam(env, e)) && (!error ==> v == Meaning(env, e).v)
  {
    hide *;
    var (v, error) := IfExpr(env, s);
    forall e | WellFormed(e) && s == Toks(e)
      ensures (error <==> Jams(env, e) || Reading(env, e).errs > 0) && (!Jams(env, e) ==> v == Reading(env, e).v)
    {
      LineReading(env, e);
    }
    forall e | WellFormed(e) && ReadWhole(env, e) && TrapFree(env, e) && s == Toks(e)
      ensures (!error <==> Meaning(env, e).errs == 0 && !DeadJam(env, e)) && (!error ==> v == Meaning(env, e).v)
    {
      LineAccepted(env, e);
    }
  }
}
